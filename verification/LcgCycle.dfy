/** The number theory behind the two alias search loops. Both draw candidates
    from a recurrence `x := (a * x + c) mod 2^w` with `a % 4 == 1` and `c` odd:
    `AliasCache::generate` with a = 513, w = 48, `AliasAllocator::next_seed`
    with a = 1, w = 12. Every such recurrence runs through all 2^w values before
    it repeats one, so a search for any value that exists comes to an end. */
module LcgCycle {
  import opened Bits

  datatype Lcg = Lcg(a: nat, c: nat, w: nat) {
    predicate FullPeriod() { a % 4 == 1 && c % 2 == 1 }
  }

  function Step(g: Lcg, x: nat): (y: nat)
    ensures y < Pow2(g.w)
  {
    (g.a * x + g.c) % Pow2(g.w)
  }

  /** The low `k` bits of `a`. */
  function Residue(a: int, k: nat): nat { a % Pow2(k) }

  function Iter(g: Lcg, x: nat, n: nat): nat
    decreases n
  {
    if n == 0 then x else Iter(g, Step(g, x), n - 1)
  }

  lemma {:induction false} IterAdd(g: Lcg, x: nat, m: nat, n: nat)
    ensures Iter(g, x, m + n) == Iter(g, Iter(g, x, m), n)
    decreases m
  {
    if m > 0 {
      IterAdd(g, Step(g, x), m - 1, n);
    }
  }

  lemma IterLast(g: Lcg, x: nat, n: nat)
    ensures Iter(g, x, n + 1) == Step(g, Iter(g, x, n))
  {
    IterAdd(g, x, n, 1);
    assert Iter(g, Iter(g, x, n), 1) == Iter(g, Step(g, Iter(g, x, n)), 0);
  }

  lemma IterRange(g: Lcg, x: nat, n: nat)
    requires x < Pow2(g.w)
    ensures Iter(g, x, n) < Pow2(g.w)
  {
    if n > 0 {
      IterLast(g, x, n - 1);
    }
  }

  // 2^k steps at once are the affine map x -> Factor * x + Offset.

  function Factor(g: Lcg, k: nat): nat {
    if k == 0 then g.a else Factor(g, k - 1) * Factor(g, k - 1)
  }

  function Offset(g: Lcg, k: nat): nat {
    if k == 0 then g.c else Factor(g, k - 1) * Offset(g, k - 1) + Offset(g, k - 1)
  }

  lemma FactorStep(g: Lcg, k: nat)
    requires k > 0
    ensures Factor(g, k) == Factor(g, k - 1) * Factor(g, k - 1)
    ensures Offset(g, k) == Factor(g, k - 1) * Offset(g, k - 1) + Offset(g, k - 1)
  {}

  /** Factor is 1 modulo 2^(k+2) and Offset is 2^k times an odd number. */
  lemma {:induction false} JumpForm(g: Lcg, k: nat) returns (u: nat, v: nat)
    requires g.FullPeriod()
    ensures Factor(g, k) == 1 + 4 * Pow2(k) * u
    ensures Offset(g, k) == Pow2(k) * (2 * v + 1)
  {
    if k == 0 {
      u, v := g.a / 4, g.c / 2;
    } else {
      var u', v' := JumpForm(g, k - 1);
      var p := Pow2(k - 1);
      RingSquare(p, u', v');
      Pow2Step(k);
      FactorStep(g, k);
      hide *;
      u, v := u' + 2 * p * u' * u', v' + p * u' * (2 * v' + 1);
    }
  }

  lemma RingSquare(p: int, u: int, v: int)
    ensures 1 + 4 * (2 * p) * (u + 2 * p * u * u) == (1 + 4 * p * u) * (1 + 4 * p * u)
    ensures 2 * p * (2 * (v + p * u * (2 * v + 1)) + 1) == (1 + 4 * p * u) * (p * (2 * v + 1)) + p * (2 * v + 1)
  {}

  lemma RingCompose(f: int, o: int, x: int)
    ensures f * (f * x + o) + o == (f * f) * x + (f * o + o)
  {}

  lemma RingFlip(p: int, u: int, v: int, x: int)
    ensures (1 + 4 * p * u) * x + p * (2 * v + 1) == x + p + (2 * u * x + v) * (2 * p)
  {}

  lemma RingPeriod(p: int, u: int, v: int, x: int)
    ensures (1 + 4 * p * u) * x + p * (2 * v + 1) == x + (4 * u * x + 2 * v + 1) * p
  {}

  lemma AffineResidue(a: int, c: int, x: int, y: int, k: nat)
    requires Residue(x, k) == Residue(y, k)
    ensures Residue(a * x + c, k) == Residue(a * y + c, k)
  {
    hide Pow2;
    var q := CongElim(x, y, Pow2(k));
    RingAffine(a, c, y, q, Pow2(k));
    CongIntro(a * x + c, a * y + c, a * q, Pow2(k));
  }

  lemma RingAffine(a: int, c: int, y: int, q: int, m: int)
    ensures a * (y + q * m) + c == a * y + c + (a * q) * m
  {}

  lemma ResidueLower(a: int, b: int, k: nat, w: nat)
    requires k <= w && Residue(a, w) == Residue(b, w)
    ensures Residue(a, k) == Residue(b, k)
  {
    CongLower(a, b, k, w);
  }

  lemma ResidueOfStep(g: Lcg, x: nat)
    ensures Residue(Iter(g, x, 1), g.w) == Residue(g.a * x + g.c, g.w)
  {
    assert Iter(g, x, 1) == Iter(g, Step(g, x), 0) == Step(g, x);
    ModIdem(g.a * x + g.c, Pow2(g.w));
  }

  lemma ModIdem(x: int, m: nat)
    requires m > 0
    ensures (x % m) % m == x % m
  {}

  lemma SmallResidue(x: nat, k: nat)
    requires x < Pow2(k)
    ensures Residue(x, k) == x
  {
    ModUnique(x, Pow2(k), 0, x);
  }

  lemma {:induction false} JumpIsAffine(g: Lcg, x: nat, k: nat)
    ensures Residue(Iter(g, x, Pow2(k)), g.w) == Residue(Factor(g, k) * x + Offset(g, k), g.w)
    decreases k
  {
    if k == 0 {
      ResidueOfStep(g, x);
    } else {
      Pow2Step(k);
      FactorStep(g, k);
      hide *;
      var p := Pow2(k - 1);
      IterAdd(g, x, p, p);
      JumpIsAffine(g, x, k - 1);
      JumpIsAffine(g, Iter(g, x, p), k - 1);
      AffineTwice(Factor(g, k - 1), Offset(g, k - 1), x, Iter(g, x, p), g.w);
    }
  }

  lemma AffineTwice(f: int, o: int, x: int, y: int, w: nat)
    requires Residue(y, w) == Residue(f * x + o, w)
    ensures Residue(f * y + o, w) == Residue((f * f) * x + (f * o + o), w)
  {
    hide *;
    AffineResidue(f, o, y, f * x + o, w);
    RingCompose(f, o, x);
  }

  /** 2^k steps flip bit k and leave the bits below it alone. */
  lemma JumpFlips(g: Lcg, x: nat, k: nat)
    requires g.FullPeriod() && k < g.w
    ensures Residue(Iter(g, x, Pow2(k)), k + 1) == Residue(x + Pow2(k), k + 1)
  {
    JumpIsAffine(g, x, k);
    var u, v := JumpForm(g, k);
    hide *;
    ResidueLower(Iter(g, x, Pow2(k)), Factor(g, k) * x + Offset(g, k), k + 1, g.w);
    FlipResidue(k, u, v, x);
  }

  lemma FlipResidue(k: nat, u: int, v: int, x: int)
    ensures var p := Pow2(k); Residue((1 + 4 * p * u) * x + p * (2 * v + 1), k + 1) == Residue(x + p, k + 1)
  {
    Pow2Step(k + 1);
    hide Pow2;
    var p := Pow2(k);
    RingFlip(p, u, v, x);
    CongIntro((1 + 4 * p * u) * x + p * (2 * v + 1), x + p, 2 * u * x + v, 2 * p);
  }

  /** The first 2^w iterates end where they began. */
  lemma Periodic(g: Lcg, x: nat)
    requires g.FullPeriod() && x < Pow2(g.w)
    ensures Iter(g, x, Pow2(g.w)) == x
  {
    JumpIsAffine(g, x, g.w);
    var u, v := JumpForm(g, g.w);
    IterRange(g, x, Pow2(g.w));
    hide *;
    PeriodResidue(g.w, u, v, x);
    SmallResidue(x, g.w);
    SmallResidue(Iter(g, x, Pow2(g.w)), g.w);
  }

  lemma PeriodResidue(k: nat, u: int, v: int, x: int)
    ensures var p := Pow2(k); Residue((1 + 4 * p * u) * x + p * (2 * v + 1), k) == Residue(x, k)
  {
    hide Pow2;
    var p := Pow2(k);
    RingPeriod(p, u, v, x);
    CongIntro((1 + 4 * p * u) * x + p * (2 * v + 1), x, 4 * u * x + 2 * v + 1, p);
  }

  lemma NoBits(x: int)
    ensures Residue(x, 0) == 0 && Pow2(0) == 1
  {}

  /** Every residue modulo 2^k turns up among the first 2^k iterates. */
  lemma {:induction false} Reach(g: Lcg, s: nat, t: nat, k: nat) returns (n: nat)
    requires g.FullPeriod() && k <= g.w
    ensures n < Pow2(k) && Residue(Iter(g, s, n), k) == Residue(t, k)
    decreases k
  {
    hide *;
    if k == 0 {
      n := 0;
      NoBits(Iter(g, s, 0));
      NoBits(t);
    } else {
      n := Reach(g, s, t, k - 1);
      n := ReachNext(g, s, t, k - 1, n);
    }
  }

  lemma ReachNext(g: Lcg, s: nat, t: nat, k: nat, n0: nat) returns (n: nat)
    requires g.FullPeriod() && k < g.w
    requires n0 < Pow2(k) && Residue(Iter(g, s, n0), k) == Residue(t, k)
    ensures n < Pow2(k + 1) && Residue(Iter(g, s, n), k + 1) == Residue(t, k + 1)
  {
    Pow2Step(k + 1);
    hide *;
    n := n0;
    var y, p := Iter(g, s, n), Pow2(k);
    if Residue(y, k + 1) != Residue(t, k + 1) {
      IterAdd(g, s, n, p);
      JumpFlips(g, y, k);
      OtherHalf(y, t, k);
      n := n0 + p;
    }
  }

  lemma OtherHalf(y: int, t: int, k: nat)
    requires Residue(y, k) == Residue(t, k) && Residue(y, k + 1) != Residue(t, k + 1)
    ensures Residue(y + Pow2(k), k + 1) == Residue(t, k + 1)
  {
    Pow2Step(k + 1);
    hide Pow2;
    var p := Pow2(k);
    var q := CongElim(y, t, p);
    if q % 2 == 0 {
      assert q * p == (q / 2) * (2 * p);
      CongIntro(y, t, q / 2, 2 * p);
    } else {
      assert q == 2 * (q / 2) + 1;
      assert (q + 1) * p == (q / 2 + 1) * (2 * p);
      CongIntro(y + p, t, q / 2 + 1, 2 * p);
    }
  }

  /** Every word is hit within the first 2^w draws, whatever the seed. */
  lemma FullCycle(g: Lcg, s: nat, t: nat) returns (n: nat)
    requires g.FullPeriod() && s < Pow2(g.w) && t < Pow2(g.w)
    ensures n < Pow2(g.w) && Iter(g, s, n) == t
  {
    n := Reach(g, s, t, g.w);
    IterRange(g, s, n);
    hide *;
    SmallResidue(t, g.w);
    SmallResidue(Iter(g, s, n), g.w);
  }

  lemma {:induction false} OddPart(d: nat) returns (k: nat, h: nat)
    requires d > 0
    ensures d == (2 * h + 1) * Pow2(k)
  {
    if d % 2 == 1 {
      k, h := 0, d / 2;
    } else {
      k, h := OddPart(d / 2);
      Pow2Step(k + 1);
      hide *;
      k := k + 1;
    }
  }

  lemma {:induction false} ManyJumps(g: Lcg, x: nat, k: nat, j: nat)
    requires g.FullPeriod() && k < g.w
    ensures Residue(Iter(g, x, j * Pow2(k)), k + 1) == Residue(x + j * Pow2(k), k + 1)
    decreases j
  {
    if j > 0 {
      ManyJumps(g, x, k, j - 1);
      hide *;
      var p := Pow2(k);
      var y := Iter(g, x, (j - 1) * p);
      assert j * p == (j - 1) * p + p;
      IterAdd(g, x, (j - 1) * p, p);
      JumpFlips(g, y, k);
      AffineResidue(1, p, y, x + (j - 1) * p, k + 1);
    }
  }

  /** No word is drawn twice within 2^w draws. */
  lemma NoRepeat(g: Lcg, s: nat, i: nat, j: nat)
    requires g.FullPeriod() && i < j < i + Pow2(g.w)
    ensures Iter(g, s, i) != Iter(g, s, j)
  {
    var y := Iter(g, s, i);
    IterAdd(g, s, i, j - i);
    var k, h := OddPart(j - i);
    OddPartBelow(j - i, k, h, g.w);
    hide *;
    ManyJumps(g, y, k, 2 * h + 1);
    OddShift(y, k, h);
  }

  lemma OddPartBelow(d: nat, k: nat, h: nat, w: nat)
    requires d == (2 * h + 1) * Pow2(k) && d < Pow2(w)
    ensures k < w
  {
    assert (2 * h + 1) * Pow2(k) == Pow2(k) + (2 * h) * Pow2(k);
    if w <= k {
      Pow2Mono(w, k);
    }
  }

  lemma OddShift(y: int, k: nat, h: nat)
    ensures Residue(y + (2 * h + 1) * Pow2(k), k + 1) != Residue(y, k + 1)
  {
    Pow2Step(k + 1);
    hide Pow2;
    var p := Pow2(k);
    assert (2 * h + 1) * p == p + h * (2 * p);
    CongIntro(y + (2 * h + 1) * p, y + p, h, 2 * p);
    if (y + p) % (2 * p) == y % (2 * p) {
      var q := CongElim(y + p, y, 2 * p);
      SmallMultiple(q, 2 * p);
    }
  }
}
