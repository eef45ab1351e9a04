/** Ranges of event identifiers. A block of events is a power of two long and aligned to
    its length. EventRegistry::align_mask (src/openlcb/EventHandler.cpp) finds a block
    around a range; EncodeRange (src/openlcb/EventHandlerTemplates.cpp) names a block by
    one identifier whose low bits run on in 0s or 1s; DecodeRange
    (src/openlcb/EventService.cpp) and event_range_to_bit_count
    (src/openlcb/RoutingLogic.cpp) read such an identifier. */
module EventRange {
  import opened Bits

  const WORD: nat := 0x1_0000_0000_0000_0000

  // ---------------------------------------------------------------------
  // Blocks around a range

  /** Does the block of `2^k` events that holds `e` also hold the `n` events from `e` on? */
  predicate Covers(e: nat, n: nat, k: nat) { e + n <= RoundDown(e, k) + Pow2(k) }

  /** The smallest such block. */
  predicate Smallest(e: nat, n: nat, k: nat) { Covers(e, n, k) && (k > 0 ==> !Covers(e, n, k - 1)) }

  lemma RoundDownStep(e: nat, k: nat)
    requires k > 0
    ensures RoundDown(e, k) == 2 * RoundDown(e / 2, k - 1)
  {
    HalfMod(e, k);
  }

  /** A block lies in one half of the next larger block. */
  lemma {:induction false} Halves(e: nat, k: nat)
    ensures RoundDown(e, k) == RoundDown(e, k + 1) + (if e / Pow2(k) % 2 == 1 then Pow2(k) else 0)
  {
    var p := Pow2(k);
    DivMod(e, p);
    var q := e / p;
    assert e == (q / 2) * (2 * p) + (q % 2 * p + e % p) by {
      assert q == q / 2 * 2 + q % 2;
      SplitProduct(q / 2, q % 2, p);
    }
    assert q % 2 * p == if q % 2 == 1 then p else 0;
    ModUnique(e, 2 * p, q / 2, q % 2 * p + e % p);
  }

  lemma SplitProduct(h: int, b: int, p: int)
    ensures (h * 2 + b) * p == h * (2 * p) + b * p
  {}

  lemma CoversGrows(e: nat, n: nat, k: nat)
    requires Covers(e, n, k)
    ensures Covers(e, n, k + 1)
  {
    Halves(e, k);
  }

  lemma {:induction false} CoversMono(e: nat, n: nat, k: nat, l: nat)
    requires k <= l && Covers(e, n, k)
    ensures Covers(e, n, l)
    decreases l
  {
    if k < l {
      hide Covers;
      CoversMono(e, n, k, l - 1);
      CoversGrows(e, n, l - 1);
    }
  }

  /** The smallest block is unique, and lies inside every aligned block that has the whole range. */
  lemma SmallestIsLeast(e: nat, n: nat, k: nat, base: nat, l: nat)
    requires Smallest(e, n, k) && n > 0
    requires base % Pow2(l) == 0 && base <= e && e + n <= base + Pow2(l)
    ensures k <= l && base == RoundDown(e, l)
    ensures base <= RoundDown(e, k) && RoundDown(e, k) + Pow2(k) <= base + Pow2(l)
  {
    hide *;
    AlignedBase(e, base, l);
    CoversIntro(e, n, l);
    if l < k {
      SmallestFails(e, n, k);
      CoversMono(e, n, l, k - 1);
    }
    Nested(e, k, l);
  }

  lemma CoversIntro(e: nat, n: nat, k: nat)
    requires e + n <= RoundDown(e, k) + Pow2(k)
    ensures Covers(e, n, k)
  {}

  lemma SmallestFails(e: nat, n: nat, k: nat)
    requires Smallest(e, n, k) && k > 0
    ensures !Covers(e, n, k - 1)
  {}

  lemma AlignedBase(e: nat, base: nat, l: nat)
    requires base % Pow2(l) == 0 && base <= e < base + Pow2(l)
    ensures base == RoundDown(e, l)
  {
    DivMod(base, Pow2(l));
    ModUnique(e, Pow2(l), base / Pow2(l), e - base);
  }

  lemma {:induction false} Nested(e: nat, k: nat, l: nat)
    requires k <= l
    ensures RoundDown(e, l) <= RoundDown(e, k) && RoundDown(e, k) + Pow2(k) <= RoundDown(e, l) + Pow2(l)
    decreases l
  {
    if k < l {
      Nested(e, k, l - 1);
      Halves(e, l - 1);
      hide RoundDown;
    }
  }

  lemma WholeSpace(e: nat)
    requires e < WORD
    ensures RoundDown(e, 64) == 0 && Pow2(64) == WORD
  {
    WordSizes();
    hide Pow2;
    ModUnique(e, Pow2(64), 0, e);
  }

  /** `31 - __builtin_clz(x)`: the number of the highest one bit. */
  function HighBit(x: nat): (b: nat)
    requires x > 0
    ensures Pow2(b) <= x < Pow2(b + 1)
  {
    if x == 1 then 0 else 1 + HighBit(x / 2)
  }

  /** At the widest, 64 bits, the original shifts by the word size and discards what
      that gives; so does this method. */
  method AlignMask(event: nat, size: nat) returns (base: nat, bits: nat)
    requires event < WORD && size < 0x1_0000_0000
    ensures bits <= 64
    ensures size <= 1 ==> base == event && bits == 0
    ensures size > 1 ==> base == RoundDown(event, bits)
    ensures event + size <= WORD && size > 0 ==> Smallest(event, size, bits) && base == RoundDown(event, bits)
  {
    if size <= 1 {
      assert Pow2(0) == 1;
      assert RoundDown(event, 0) == event;
      return event, 0;
    }
    var log2 := HighBit(size - 1);
    Widths(event, size);
    hide *;
    ghost var fits := event + size <= WORD;
    var newEvent;
    while true
      invariant log2 < 64
      invariant fits ==> !Covers(event, size, log2)
      decreases 64 - log2
    {
      log2 := log2 + 1;
      if log2 >= 64 { break; }
      var roundedRange := Pow2(log2);
      AlignTest(event, size, log2);
      newEvent := And(event, WORD - roundedRange);
      if newEvent + (roundedRange - 1) >= (event + (size - 1)) % WORD {
        break;
      }
    }
    if log2 >= 64 {
      newEvent := 0;
      log2 := 64;
    }
    if fits { FoundSmallest(event, size, log2); }
    return newEvent, log2;
  }

  /** The first and the last width that come into question. */
  lemma Widths(e: nat, n: nat)
    requires e < WORD && 1 < n < 0x1_0000_0000
    ensures HighBit(n - 1) < 32 && !Covers(e, n, HighBit(n - 1))
    ensures RoundDown(e, 64) == 0 && (e + n <= WORD ==> Covers(e, n, 64))
  {
    WordSizes();
    WholeSpace(e);
    TooNarrow(e, n, HighBit(n - 1));
    Pow2Size(HighBit(n - 1), n - 1, 32);
  }

  /** One test of the loop. */
  lemma AlignTest(e: nat, n: nat, k: nat)
    requires e < WORD && n > 1 && k < 64
    ensures 1 <= Pow2(k) <= WORD && And(e, WORD - Pow2(k)) == RoundDown(e, k)
    ensures e + n <= WORD ==>
      (Covers(e, n, k) <==> RoundDown(e, k) + (Pow2(k) - 1) >= (e + (n - 1)) % WORD)
  {
    WordSizes();
    hide Pow2, RoundDown;
    Pow2Mono(k, 64);
    AndHighMask(e, k, 64);
    if e + n <= WORD {
      assert (e + (n - 1)) % WORD == e + (n - 1);
    }
  }

  lemma FoundSmallest(e: nat, n: nat, k: nat)
    requires Covers(e, n, k) && k > 0 && !Covers(e, n, k - 1)
    ensures Smallest(e, n, k)
  {}

  /** A block is at least as long as the range in it. */
  lemma TooNarrow(e: nat, n: nat, k: nat)
    requires Pow2(k) < n
    ensures !Covers(e, n, k)
  {}

  lemma Pow2Size(k: nat, x: nat, w: nat)
    requires Pow2(k) <= x < Pow2(w)
    ensures k < w
  {
    if k >= w { Pow2Mono(w, k); }
  }

  // ---------------------------------------------------------------------
  // Identifiers that name a block

  /** How many low bits of `e` equal its lowest bit. */
  function Run(e: nat): (r: nat)
    requires e > 0
    ensures r >= 1
  {
    if e % 2 == (e / 2) % 2 then 1 + Run(e / 2) else 1
  }

  function DecodeMask(e: nat): (m: nat)
    requires e < WORD
  {
    if e % 2 == 1 then Xor(e, (e + 1) % WORD) / 2 else Xor(e, (e + WORD - 1) % WORD) / 2
  }

  function DecodeBase(e: nat): nat
    requires e < WORD && DecodeMask(e) < WORD
  {
    And(e, WORD - 1 - DecodeMask(e))
  }

  lemma {:induction false} XorSelf(a: nat)
    ensures Xor(a, a) == 0
  {
    if a > 0 { XorSelf(a / 2); }
  }

  /** Adding 1 to an odd number changes the run of ones and the zero above it. */
  lemma {:induction false} XorNext(e: nat)
    requires e % 2 == 1
    ensures Xor(e, e + 1) == Pow2(Run(e) + 1) - 1
  {
    var h := e / 2;
    assert Xor(e, e + 1) == 2 * Xor(h, h + 1) + 1 && (e + 1) / 2 == h + 1;
    hide Pow2;
    Pow2Step(Run(e) + 1);
    Pow2Step(1);
    if h % 2 == 1 {
      XorNext(h);
    } else {
      XorSelf(h / 2);
    }
  }

  lemma {:induction false} XorPrevious(e: nat)
    requires e % 2 == 0 && e > 0
    ensures Xor(e, e - 1) == Pow2(Run(e) + 1) - 1
  {
    var h := e / 2;
    assert Xor(e, e - 1) == 2 * Xor(h, h - 1) + 1;
    hide Pow2;
    Pow2Step(Run(e) + 1);
    Pow2Step(1);
    if h % 2 == 0 {
      XorPrevious(h);
    } else {
      XorSelf(h / 2);
    }
  }

  /** The run is short unless all bits are equal. */
  lemma {:induction false} RunFits(e: nat, w: nat)
    requires 0 < e < Pow2(w) - 1
    ensures Run(e) < w
  {
    if e % 2 == (e / 2) % 2 {
      RunFits(e / 2, w - 1);
    } else if w == 1 {
      assert false;
    }
  }

  lemma MaskOfRun(e: nat)
    requires 0 < e < WORD - 1
    ensures DecodeMask(e) == Pow2(Run(e)) - 1
  {
    hide Xor, Run, Pow2;
    Pow2Step(Run(e) + 1);
    if e % 2 == 1 {
      XorNext(e);
      assert (e + 1) % WORD == e + 1;
    } else {
      XorPrevious(e);
      assert (e + WORD - 1) % WORD == e - 1;
    }
  }

  lemma Decode(e: nat)
    requires 0 < e < WORD - 1
    ensures DecodeMask(e) == Pow2(Run(e)) - 1 < WORD && Run(e) < 64
    ensures DecodeBase(e) == RoundDown(e, Run(e))
  {
    hide DecodeMask, Pow2, Run, Xor, And, RoundDown;
    WordSizes();
    RunFits(e, 64);
    MaskOfRun(e);
    Pow2Mono(Run(e), 64);
    AndHighMask(e, Run(e), 64);
  }

  /** Digit `i` of `e`. */
  function Bit(e: nat, i: nat): (b: nat)
    ensures b < 2
  {
    e / Pow2(i) % 2
  }

  lemma BitStep(e: nat, i: nat)
    requires i > 0
    ensures Bit(e, i) == Bit(e / 2, i - 1)
  {
    var m := Pow2(i - 1);
    DivMod(e / 2, m);
    ModUnique(e, 2 * m, e / 2 / m, 2 * (e / 2 % m) + e % 2) by {
      assert e == e / 2 / m * (2 * m) + (2 * (e / 2 % m) + e % 2) by { DoubleProduct(e / 2 / m, m); }
    }
  }

  lemma DoubleProduct(q: int, m: int)
    ensures q * (2 * m) == 2 * (q * m)
  {}

  /** The run, said without recursion: that many bits are equal, and the next one is not. */
  lemma {:induction false} RunIsLongest(e: nat)
    requires e > 0
    ensures forall i: nat | i < Run(e) :: Bit(e, i) == e % 2
    ensures Bit(e, Run(e)) != e % 2
  {
    hide Bit, Pow2;
    LowBit(e);
    BitStep(e, Run(e));
    if e % 2 == (e / 2) % 2 {
      RunIsLongest(e / 2);
      forall i: nat | i < Run(e) ensures Bit(e, i) == e % 2 {
        if i > 0 { BitStep(e, i); }
      }
    } else {
      LowBit(e / 2);
    }
  }

  lemma LowBit(e: nat)
    ensures Bit(e, 0) == e % 2
  {
    assert Pow2(0) == 1;
  }

  /** `e & (1 << i)`. */
  lemma {:induction false} AndBit(e: nat, i: nat)
    ensures And(e, Pow2(i)) == Bit(e, i) * Pow2(i)
  {
    if e == 0 {
      ModUnique(0, Pow2(i), 0, 0);
    } else if i == 0 {
      AndLowMask(e, 1);
      LowBit(e);
      assert Pow2(0) == 1 && Pow2(1) == 2;
    } else {
      AndBit(e / 2, i - 1);
      BitStep(e, i);
      Pow2Step(i);
      hide Pow2, Bit;
      DoubleProduct(Bit(e, i), Pow2(i - 1));
    }
  }

  lemma {:induction false} AllOnes(w: nat)
    requires w > 0
    ensures Run(Pow2(w) - 1) == w
  {
    if w > 1 {
      AllOnes(w - 1);
      assert (Pow2(w) - 1) / 2 == Pow2(w - 1) - 1;
    } else {
      assert Pow2(1) == 2;
    }
  }

  // ---------------------------------------------------------------------
  // Reading the run bit by bit

  /** What event_range_to_bit_count counts. */
  function BitCount(e: nat): nat
    requires e < WORD
  {
    if e == 0 || e == WORD - 1 then 64 else Run(e)
  }

  method EventRangeToBitCount(event: nat) returns (base: nat, ret: nat)
    requires event < WORD
    ensures ret == BitCount(event) && base == RoundDown(event, ret)
  {
    var mask := 1;
    ret := 0;
    var value := And(event, mask);
    FirstBit(event);
    hide *;
    while ret < 64 && And(event, mask) == value
      invariant ret <= 64 && mask == Shifted(1, ret) && value == Shifted(event % 2, ret)
      invariant forall i: nat | i < ret :: Bit(event, i) == event % 2
      decreases 64 - ret
    {
      BitTest(event, ret);
      ShiftOnce(event % 2, ret);
      ShiftOnce(1, ret);
      mask := mask * 2 % WORD;
      value := value * 2 % WORD;
      ret := ret + 1;
    }
    if ret < 64 { BitTest(event, ret); }
    CountIsRun(event, ret);
    ClearBelow(event, ret);
    base := And(event, WORD - 1 - (mask + WORD - 1) % WORD);
  }

  /** `b << i` in 64 bits, where `b` is 0 or 1. */
  function Shifted(b: nat, i: nat): nat { if b == 1 && i < 64 then Pow2(i) else 0 }

  lemma ShiftOnce(b: nat, i: nat)
    requires b < 2 && i < 64
    ensures Shifted(b, i) * 2 % WORD == Shifted(b, i + 1)
  {
    WordSizes();
    hide Pow2;
    Pow2Step(i + 1);
    if i < 63 {
      Pow2Mono(i + 1, 63);
      SumFits(Pow2(i + 1), 0);
    }
  }

  lemma FirstBit(e: nat)
    ensures And(e, 1) == Shifted(e % 2, 0) && Shifted(1, 0) == 1
  {
    AndBit(e, 0);
    LowBit(e);
    assert Pow2(0) == 1;
  }

  lemma BitTest(e: nat, i: nat)
    requires i < 64
    ensures And(e, Shifted(1, i)) == Shifted(e % 2, i) <==> Bit(e, i) == e % 2
  {
    AndBit(e, i);
    hide Pow2, Bit;
    assert forall b: nat | b < 2 :: b * Pow2(i) == if b == 0 then 0 else Pow2(i);
  }

  lemma CountIsRun(e: nat, n: nat)
    requires e < WORD && n <= 64
    requires forall i: nat | i < n :: Bit(e, i) == e % 2
    requires n < 64 ==> Bit(e, n) != e % 2
    ensures n == BitCount(e)
  {
    hide Bit, Run;
    WordSizes();
    if e == 0 {
      ZeroBit(n);
    } else {
      RunIsLongest(e);
      if e == WORD - 1 { AllOnes(64); } else { RunFits(e, 64); }
    }
  }

  lemma ZeroBit(i: nat)
    ensures Bit(0, i) == 0
  {
    ModUnique(0, Pow2(i), 0, 0);
  }

  /** `x - 1` in 64 bits. */
  lemma WrapDown(x: nat)
    requires x < WORD
    ensures (x + WORD - 1) % WORD == if x == 0 then WORD - 1 else x - 1
  {}

  lemma AndNone(e: nat)
    ensures And(e, 0) == 0
  {}

  lemma ClearBelow(e: nat, n: nat)
    requires e < WORD && n <= 64
    ensures (Shifted(1, n) + WORD - 1) % WORD < WORD
    ensures And(e, WORD - 1 - (Shifted(1, n) + WORD - 1) % WORD) == RoundDown(e, n)
  {
    hide Pow2, RoundDown, And;
    WordSizes();
    WholeSpace(e);
    if n < 64 { Pow2Mono(n, 63); }
    WrapDown(Shifted(1, n));
    if n < 64 {
      AndHighMask(e, n, 64);
    } else {
      AndNone(e);
    }
  }

  /** The two readings of an identifier agree, except at the two ends of the space. */
  lemma DecodersAgree(e: nat)
    requires e < WORD
    ensures (DecodeMask(e) == Pow2(BitCount(e)) - 1 && DecodeMask(e) < WORD && DecodeBase(e) == RoundDown(e, BitCount(e)))
      <==> e != 0 && e != WORD - 1
  {
    WordSizes();
    hide Pow2, Run, RoundDown;
    if 0 < e < WORD - 1 {
      Decode(e);
    } else {
      assert DecodeMask(e) == (WORD - 1) / 2 by {
        assert (e + 1) % WORD == 0 || (e + WORD - 1) % WORD == WORD - 1;
      }
    }
  }

  // ---------------------------------------------------------------------
  // Naming a block

  /** The width that EncodeRange arrives at. It compares with the last event of the range,
      not with the end of the range, and so finds room for one event less. */
  function EncodeWidth(begin: nat, end: nat, i: nat): (m: nat)
    decreases end - Pow2(i)
  {
    Pow2Mono(i, i + 1);
    if RoundDown(begin, i) + Pow2(i) < end then EncodeWidth(begin, end, i + 1) else i
  }

  function Encoded(begin: nat, size: nat): nat
    requires size > 0
  {
    var m := EncodeWidth(begin, begin + size - 1, 0);
    RoundDown(begin, m) + if Bit(begin, m) == 1 then 0 else Pow2(m) - 1
  }

  /** `a & ~(1 << i)` for a number that has its bits below `i` clear. */
  lemma {:induction false} ClearBit(a: nat, i: nat, w: nat)
    requires i < w && a < Pow2(w) && Pow2(i) < Pow2(w)
    ensures And(RoundDown(a, i), Pow2(w) - 1 - Pow2(i)) == RoundDown(a, i + 1)
  {
    if i == 0 {
      assert RoundDown(a, 0) == a && Pow2(0) == 1 && Pow2(1) == 2;
      AndHighMask(a, 1, w);
    } else {
      RoundDownStep(a, i);
      RoundDownStep(a, i + 1);
      Pow2Step(w);
      Pow2Step(i);
      ClearBit(a / 2, i - 1, w - 1);
      hide Pow2, RoundDown;
      var x, y := RoundDown(a, i), Pow2(w) - 1 - Pow2(i);
      assert x / 2 == RoundDown(a / 2, i - 1) && y / 2 == Pow2(w - 1) - 1 - Pow2(i - 1);
    }
  }

  method EncodeRange(first: nat, size: nat) returns (r: nat)
    requires 0 < size && first + size <= 0x8000_0000_0000_0000
    ensures r == Encoded(first, size) && r < WORD
  {
    var begin, shift, end := first, 1, first + size - 1;
    ghost var i := 0;
    WidthStart(first);
    WordSizes();
    hide Pow2, RoundDown, EncodeWidth, Encoded, And, Or, Bit;
    while (begin + shift) % WORD < end
      invariant begin == RoundDown(first, i) && shift == Pow2(i) && begin + shift < WORD
      invariant EncodeWidth(first, end, i) == EncodeWidth(first, end, 0)
      decreases end - Pow2(i)
    {
      SumFits(begin, shift);
      ShiftFits(i, end);
      WidthGoesOn(first, end, i);
      ClearBit(first, i, 64);
      SumFits(shift * 2, 0);
      begin := And(begin, WORD - 1 - shift);
      shift := shift * 2 % WORD;
      i := i + 1;
    }
    SumFits(begin, shift);
    WidthDone(first, end, i);
    EncodeTail(first, i);
    EncodedIs(first, size, i);
    if And(begin, shift) != 0 {
      return begin;
    } else {
      begin := Or(begin, shift - 1);
      return begin;
    }
  }

  lemma WidthStart(first: nat)
    ensures RoundDown(first, 0) == first && Pow2(0) == 1
  {}

  lemma SumFits(a: nat, b: nat)
    requires a + b < WORD
    ensures (a + b) % WORD == a + b
  {}

  lemma WidthGoesOn(first: nat, end: nat, i: nat)
    requires RoundDown(first, i) + Pow2(i) < end
    ensures EncodeWidth(first, end, i) == EncodeWidth(first, end, i + 1)
  {}

  lemma ShiftFits(i: nat, end: nat)
    requires Pow2(i) < end < 0x8000_0000_0000_0000
    ensures i < 63 && Pow2(i) < Pow2(i + 1) == Pow2(i) * 2 <= 0x8000_0000_0000_0000
  {
    WordSizes();
    hide Pow2;
    Pow2Size(i, end, 63);
    Pow2Mono(i + 1, 63);
    Pow2Step(i + 1);
  }

  lemma WidthDone(first: nat, end: nat, i: nat)
    requires RoundDown(first, i) + Pow2(i) >= end
    ensures EncodeWidth(first, end, i) == i
  {}

  lemma EncodedIs(first: nat, size: nat, m: nat)
    requires size > 0 && m == EncodeWidth(first, first + size - 1, 0)
    ensures Encoded(first, size) == RoundDown(first, m) + if Bit(first, m) == 1 then 0 else Pow2(m) - 1
  {}

  /** The branch at the end of EncodeRange. */
  lemma EncodeTail(first: nat, i: nat)
    ensures And(RoundDown(first, i), Pow2(i)) != 0 <==> Bit(first, i) == 1
    ensures Or(RoundDown(first, i), Pow2(i) - 1) == RoundDown(first, i) + (Pow2(i) - 1)
  {
    hide RoundDown, Pow2, Bit, And, Or;
    AndBit(RoundDown(first, i), i);
    RoundDownAligned(first, i);
    OrDisjoint(RoundDown(first, i), Pow2(i) - 1, i);
    RoundDownBit(first, i);
    assert Bit(first, i) == 1 ==> Bit(first, i) * Pow2(i) == Pow2(i);
  }

  lemma RoundDownBit(a: nat, i: nat)
    ensures Bit(RoundDown(a, i), i) == Bit(a, i)
  {
    DivMod(a, Pow2(i));
    ModUnique(RoundDown(a, i), Pow2(i), a / Pow2(i), 0);
  }

  /** The width is that of the smallest block for all events of the range but the last. */
  lemma {:induction false} WidthIsSmallest(b: nat, n: nat, i: nat)
    requires i > 0 ==> !Covers(b, n, i - 1)
    ensures Smallest(b, n, EncodeWidth(b, b + n, i))
    decreases b + n - Pow2(i)
  {
    Pow2Mono(i, i + 1);
    hide RoundDown, Pow2;
    if RoundDown(b, i) + Pow2(i) < b + n {
      WidthIsSmallest(b, n, i + 1);
    }
  }

  /** An aligned number with a run of `m` bits below bit `m` of the other kind. */
  lemma {:induction false} RunOfName(a: nat, m: nat)
    requires m > 0 && a % Pow2(m) == 0
    ensures Bit(a, m) == 1 ==> a > 0 && Run(a) == m
    ensures Bit(a, m) == 0 ==> a + Pow2(m) - 1 > 0 && Run(a + Pow2(m) - 1) == m
  {
    hide *;
    AlignedHalf(a, m);
    BitStep(a, m);
    if m == 1 {
      RunOfPair(a);
    } else {
      RunOfName(a / 2, m - 1);
      EvenPower(m - 1);
      RunOfHalf(a, a / 2, m);
    }
  }

  lemma AlignedHalf(a: nat, m: nat)
    requires m > 0 && a % Pow2(m) == 0
    ensures a % 2 == 0 && (a / 2) % Pow2(m - 1) == 0
    ensures m > 1 ==> (a / 2) % 2 == 0
  {
    HalfMod(a, m);
    if m > 1 { HalfMod(a / 2, m - 1); }
    hide Pow2;
  }

  lemma EvenPower(m: nat)
    requires m > 0
    ensures Pow2(m) % 2 == 0 && Pow2(m + 1) == 2 * Pow2(m)
  {
    Pow2Step(m);
    hide Pow2;
  }

  lemma RunOfPair(a: nat)
    requires a % 2 == 0
    ensures Pow2(1) == 2 && Bit(a / 2, 0) == a / 2 % 2
    ensures a / 2 % 2 == 1 ==> Run(a) == 1
    ensures a / 2 % 2 == 0 ==> Run(a + 1) == 1
  {
    LowBit(a / 2);
    assert (a + 1) / 2 == a / 2;
  }

  lemma RunOfHalf(a: nat, h: nat, m: nat)
    requires m > 1 && a == 2 * h && h % 2 == 0 && Pow2(m) == 2 * Pow2(m - 1) && Pow2(m - 1) % 2 == 0
    ensures h > 0 ==> Run(a) == 1 + Run(h)
    ensures h + Pow2(m - 1) - 1 > 0 ==> Run(a + Pow2(m) - 1) == 1 + Run(h + Pow2(m - 1) - 1)
  {
    hide Pow2, Run;
    if h > 0 { RunDouble(h, 0); }
    if h + Pow2(m - 1) - 1 > 0 { RunDouble(h + Pow2(m - 1) - 1, 1); }
  }

  lemma RunDouble(h: nat, b: nat)
    requires h > 0 && h % 2 == b < 2
    ensures Run(2 * h + b) == 1 + Run(h)
  {}

  lemma EncodedWidth(b: nat, size: nat, m: nat)
    requires size >= 3 && b + size <= 0x8000_0000_0000_0000 && m == EncodeWidth(b, b + (size - 1), 0)
    ensures 0 < m <= 63 && RoundDown(b, m) <= b
  {
    hide RoundDown, EncodeWidth, Pow2;
    WidthIsSmallest(b, size - 1, 0);
    WordSizes();
    WidthStart(b);
    if m > 0 { Pow2Size(m - 1, b + size - 1, 63); }
  }

  /** The block that a name stands for, for ranges of three events and more. */
  lemma EncodedBlock(b: nat, size: nat, m: nat)
    requires size >= 3 && b + size <= 0x8000_0000_0000_0000 && m == EncodeWidth(b, b + (size - 1), 0)
    ensures Encoded(b, size) < WORD && DecodeMask(Encoded(b, size)) == Pow2(m) - 1 < WORD
    ensures DecodeBase(Encoded(b, size)) == RoundDown(b, m)
  {
    hide RoundDown, EncodeWidth, Pow2, Encoded, Run, DecodeMask, DecodeBase, Bit;
    var a, e := RoundDown(b, m), Encoded(b, size);
    RoundDownAligned(b, m);
    EncodedWidth(b, size, m);
    EncodedIs(b, size, m);
    RoundDownBit(b, m);
    RunOfName(a, m);
    WordSizes();
    EvenPower(m);
    Pow2Mono(m, 63);
    assert 0 < e < WORD - 1 && a <= e < a + Pow2(m);
    hide *;
    Decode(e);
    AlignedBase(e, a, m);
  }

  /** Can EncodeRange name the smallest block around the range? */
  predicate Nameable(b: nat, size: nat, k: nat) {
    if size >= 3 then k > 0 && (b + size - 1) % Pow2(k - 1) != 0 else size == 2 && b % 4 == 2
  }

  /** Decoding an encoded range gives the smallest block around it, the one that
      AlignMask finds, if and only if it is nameable: for three events and more, if the
      last event does not stand at the very start of the upper half of that block. */
  lemma EncodeDecode(b: nat, size: nat, k: nat)
    requires 0 < size && b + size <= 0x8000_0000_0000_0000 && Smallest(b, size, k)
    ensures var e := Encoded(b, size);
      && e < WORD && DecodeMask(e) < WORD
      && (DecodeBase(e) == RoundDown(b, k) && DecodeMask(e) == Pow2(k) - 1 <==> Nameable(b, size, k))
  {
    assert b < WORD - 1;
    hide *;
    if size >= 3 {
      var m := EncodeWidth(b, b + (size - 1), 0);
      EncodedBlock(b, size, m);
      WidthIsSmallest(b, size - 1, 0);
      WidthMatches(b, size, k, m);
    } else {
      EncodedShort(b, size);
      ShortRanges(b, size, k);
    }
  }

  lemma WidthMatches(b: nat, size: nat, k: nat, m: nat)
    requires size >= 3 && Smallest(b, size, k) && Smallest(b, size - 1, m)
    ensures RoundDown(b, m) == RoundDown(b, k) && Pow2(m) == Pow2(k) <==> Nameable(b, size, k)
  {
    hide Pow2, RoundDown, Covers;
    WideBlock(b, size, k);
    CoversLess(b, size, k);
    if m < k { CoversMono(b, size - 1, m, k - 1); }
    if k < m { CoversMono(b, size - 1, k, m - 1); }
    PowersDiffer(m, k);
    UpperHalf(b, size, k);
  }

  lemma WideBlock(b: nat, size: nat, k: nat)
    requires size > 2 && Covers(b, size, k)
    ensures k >= 2
  {
    assert Pow2(0) == 1 && Pow2(1) == 2;
  }

  lemma OddNotMultiple(a: nat, k: nat)
    requires a % 2 == 1 && k > 0
    ensures a % Pow2(k) != 0
  {
    HalfMod(a, k);
    hide Pow2;
  }

  lemma CoversLess(b: nat, size: nat, k: nat)
    requires size > 0 && Covers(b, size, k)
    ensures Covers(b, size - 1, k)
  {}

  /** The last event starts the upper half of the block if the lower half just misses it. */
  lemma UpperHalf(b: nat, size: nat, k: nat)
    requires size >= 1 && k > 0 && Covers(b, size, k) && !Covers(b, size, k - 1)
    ensures Covers(b, size - 1, k - 1) <==> (b + size - 1) % Pow2(k - 1) == 0
  {
    var p, a, end := Pow2(k - 1), RoundDown(b, k - 1), b + size - 1;
    Halves(b, k - 1);
    Pow2Step(k);
    RoundDownAligned(b, k - 1);
    hide Pow2, RoundDown;
    assert a + p <= end < a + p + p;
    RemainderAbove(a, p, end - a - p);
  }

  lemma RemainderAbove(base: nat, p: nat, r: nat)
    requires p > 0 && base % p == 0 && r < p
    ensures (base + p + r) % p == r
  {
    CongIntro(base + p + r, base + r, 1, p);
    DivMod(base, p);
    ModUnique(base + r, p, base / p, r);
  }

  lemma EncodedShort(b: nat, size: nat)
    requires 0 < size < 3
    ensures Encoded(b, size) == b
  {
    WidthStart(b);
    WidthDone(b, b + size - 1, 0);
    LowBit(b);
  }

  lemma MaskOfZero(k: nat)
    requires k <= 1
    ensures Pow2(k) - 1 < DecodeMask(0) < WORD
  {
    assert Pow2(0) == 1 && Pow2(1) == 2;
  }

  lemma PowersDiffer(a: nat, b: nat)
    ensures Pow2(a) == Pow2(b) <==> a == b
  {
    if a < b { Pow2Mono(a, b); }
    if b < a { Pow2Mono(b, a); }
  }

  lemma SmallestUnique(e: nat, n: nat, k: nat, l: nat)
    requires Smallest(e, n, k) && Smallest(e, n, l)
    ensures k == l
  {
    hide Covers;
    if k < l { CoversMono(e, n, k, l - 1); }
    if l < k { CoversMono(e, n, l, k - 1); }
  }

  lemma {:induction false} OddRun(e: nat)
    requires e % 2 == 1
    ensures e % Pow2(Run(e)) == Pow2(Run(e)) - 1
  {
    HalfMod(e, Run(e));
    if (e / 2) % 2 == 1 {
      OddRun(e / 2);
    } else {
      assert Pow2(0) == 1;
    }
  }

  /** One event is a block; so are two, from an even one on; from an odd one on they are not
      in a block as long as its run. */
  lemma ShortBlocks(b: nat, size: nat, k: nat)
    requires 0 < size < 3 && Smallest(b, size, k)
    ensures size == 1 ==> k == 0
    ensures size == 2 && b % 2 == 0 ==> k == 1
    ensures size == 2 && b % 2 == 1 ==> k != Run(b)
  {
    WidthStart(b);
    assert Pow2(1) == 2;
    hide Pow2;
    if size == 1 {
      SmallestUnique(b, 1, 0, k);
    } else if b % 2 == 0 {
      assert RoundDown(b, 1) == b;
      SmallestUnique(b, 2, 1, k);
    } else {
      OddRun(b);
    }
  }

  /** One or two events are encoded as the first of them. */
  lemma ShortRanges(b: nat, size: nat, k: nat)
    requires 0 < size < 3 && b < WORD - 1 && Smallest(b, size, k)
    ensures DecodeMask(b) < WORD
    ensures DecodeBase(b) == RoundDown(b, k) && DecodeMask(b) == Pow2(k) - 1 <==> Nameable(b, size, k)
  {
    hide *;
    ShortFits(b, size, k);
    if b == 0 {
      MaskOfZero(k);
    } else {
      Decode(b);
      PowersDiffer(k, Run(b));
    }
  }

  /** The block is as long as the run only if the range is nameable. */
  lemma ShortFits(b: nat, size: nat, k: nat)
    requires 0 < size < 3 && Smallest(b, size, k)
    ensures b > 0 ==> (k == Run(b) <==> Nameable(b, size, k))
    ensures b == 0 ==> k <= 1 && !Nameable(b, size, k)
  {
    hide *;
    ShortBlocks(b, size, k);
    ShortNames(b, size, k);
    if b > 0 { ShortRun(b); }
  }

  lemma ShortNames(b: nat, size: nat, k: nat)
    requires size < 3
    ensures Nameable(b, size, k) <==> size == 2 && b % 4 == 2
  {}

  lemma ShortRun(b: nat)
    requires b > 0
    ensures b % 2 == 0 ==> (Run(b) == 1 <==> b % 4 == 2)
  {}

  /** One event more than a block of two or more, such as the events 0 to 2: the
      identifier names the block, and misses the last event. */
  lemma UnnameableRange(b: nat, k: nat)
    requires k >= 2 && b % Pow2(k) == 0 && b + Pow2(k - 1) + 1 <= 0x8000_0000_0000_0000
    ensures var size := Pow2(k - 1) + 1;
      Smallest(b, size, k) && !Nameable(b, size, k)
    ensures var e := Encoded(b, Pow2(k - 1) + 1);
      e < WORD && DecodeMask(e) == Pow2(k - 1) - 1 < WORD && DecodeBase(e) == b
  {
    hide *;
    var n := Pow2(k - 1);
    BlockAndOne(b, k);
    WidthIsSmallest(b, n, 0);
    SmallestIsOne(b, n, k - 1, EncodeWidth(b, b + n, 0));
    EncodedBlock(b, n + 1, k - 1);
  }

  lemma SmallestIsOne(b: nat, n: nat, k: nat, m: nat)
    requires Smallest(b, n, k) && Smallest(b, n, m)
    ensures k == m
  {
    hide Covers;
    if m < k { CoversMono(b, n, m, k - 1); }
    if m > k { CoversMono(b, n, k, m - 1); }
  }

  lemma BlockAndOne(b: nat, k: nat)
    requires k >= 2 && b % Pow2(k) == 0
    ensures var n := Pow2(k - 1);
      && n >= 2 && Smallest(b, n, k - 1) && Smallest(b, n + 1, k) && !Nameable(b, n + 1, k)
      && RoundDown(b, k - 1) == b
  {
    Pow2Step(k);
    Pow2Step(k - 1);
    var n := Pow2(k - 1);
    CongLower(b, 0, k - 1, k);
    CongLower(b, 0, k - 2, k);
    hide Pow2;
    assert b / n * n == b && (b / n + 1) * n == b + n;
    ModUnique(b + n, n, b / n + 1, 0);
  }

  /** Ranges of four or more events, of even start and even length, are all nameable. */
  lemma EvenRanges(b: nat, size: nat, k: nat)
    requires b % 2 == 0 && size % 2 == 0 && size >= 4 && Smallest(b, size, k)
    ensures Nameable(b, size, k)
  {
    hide RoundDown, Pow2, Covers;
    WideBlock(b, size, k);
    OddNotMultiple(b + size - 1, k - 1);
  }
}
