/** The alias allocator flow (src/openlcb/AliasAllocator.cpp) of one node, updated in
    place. `GetNewSeed` is the search for a candidate; the other methods are the
    states of the flow, and do what `AliasProtocol` assumes of a node. */
module AliasAllocator {
  import opened Bits
  import opened LcgCycle
  import opened RecencyList
  import opened AliasSlots
  import opened AliasCache
  import opened AliasProtocol

  /** What next_seed adds to the 12-bit seed; computed in 16 bits and made odd. */
  function SeedStep(ifId: nat): nat {
    var folded := Xor(Xor(Xor(ifId / 0x10_0000_0000, ifId / 0x100_0000), ifId / 0x1000), ifId) % 0x10000;
    Or(folded * 2 % 0x10000, 1)
  }

  /** Where the seed starts for a given interface. */
  function FirstSeed(ifId: nat): (s: nat)
    ensures s < 0x1000
  {
    var a := ifId / 0x4000_0000 % 0x1000;
    var b := Xor(a, ifId / 0x4_0000) % 0x1000;
    var c := Xor(b, ifId / 0x40) % 0x1000;
    Xor(c, Or(ifId / 0x400_0000_0000 % 0x10000, ifId * 0x40 % 0x10000)) % 0x1000
  }

  /** Interfaces whose IDs differ in the last 6 bits only start with different seeds. */
  lemma FirstSeedsDiffer(a: nat, b: nat)
    requires a < 0x1_0000_0000_0000 && b < 0x1_0000_0000_0000 && a / 0x40 == b / 0x40
    ensures FirstSeed(a) == FirstSeed(b) <==> a == b
  {
    hide *;
    var c: nat, h: nat := SeedMid(a), a / 0x400_0000_0000;
    SeedParts(a);
    SeedParts(b);
    SameMid(a, b);
    XorSwap(c, h + a % 0x40 * 0x40, c, h + b % 0x40 * 0x40);
    XorZero(c, c);
    XorZero(h + a % 0x40 * 0x40, h + b % 0x40 * 0x40);
  }

  /** The parts of the ID that the first seed is folded from. */
  function FirstParts(ifId: nat): seq<nat> {
    [ifId / 0x4000_0000 % 0x1000, ifId / 0x4_0000 % 0x1000, ifId / 0x40 % 0x1000,
     ifId / 0x400_0000_0000 + ifId % 0x40 * 0x40]
  }

  /** Every part counts: IDs that differ in one of them only start with different seeds. */
  lemma FirstPartsCount(a: nat, b: nat, j: nat)
    requires a < 0x1_0000_0000_0000 && b < 0x1_0000_0000_0000
    requires j < 4 && forall i | 0 <= i < 4 && i != j :: FirstParts(a)[i] == FirstParts(b)[i]
    ensures FirstSeed(a) == FirstSeed(b) <==> FirstParts(a)[j] == FirstParts(b)[j]
  {
    hide Xor, Or, FirstSeed, Fold;
    FirstIsFold(a);
    FirstIsFold(b);
    FoldCounts(FirstParts(a), FirstParts(b), j);
  }

  lemma FirstIsFold(ifId: nat)
    requires ifId < 0x1_0000_0000_0000
    ensures FirstSeed(ifId) == Fold(FirstParts(ifId))
  {
    hide *;
    SeedParts(ifId);
    MidTwelves(ifId);
    PartsOfFirst(ifId);
    FoldFour(ifId / 0x4000_0000 % 0x1000, ifId / 0x4_0000 % 0x1000, ifId / 0x40 % 0x1000,
             ifId / 0x400_0000_0000 + ifId % 0x40 * 0x40);
  }

  lemma PartsOfFirst(ifId: nat)
    ensures FirstParts(ifId)
      == [ifId / 0x4000_0000 % 0x1000, ifId / 0x4_0000 % 0x1000, ifId / 0x40 % 0x1000,
          ifId / 0x400_0000_0000 + ifId % 0x40 * 0x40]
  {}

  lemma MidTwelves(ifId: nat)
    ensures SeedMid(ifId)
      == Xor(Xor(ifId / 0x4000_0000 % 0x1000, ifId / 0x4_0000 % 0x1000), ifId / 0x40 % 0x1000)
  {
    hide Xor;
    var a, b, c := ifId / 0x4000_0000 % 0x1000, ifId / 0x4_0000, ifId / 0x40;
    assert a % 0x1000 == a;
    XorTwelves(a, b);
    var ab := Xor(a, b) % 0x1000;
    assert ab % 0x1000 == ab;
    XorTwelves(ab, c);
  }

  function SeedMid(ifId: nat): nat {
    Xor(Xor(ifId / 0x4000_0000 % 0x1000, ifId / 0x4_0000) % 0x1000, ifId / 0x40) % 0x1000
  }

  lemma SeedParts(ifId: nat)
    requires ifId < 0x1_0000_0000_0000
    ensures FirstSeed(ifId) == Xor(SeedMid(ifId), ifId / 0x400_0000_0000 + ifId % 0x40 * 0x40)
  {
    hide *;
    FirstSeedMid(ifId);
    LastPart(ifId);
    SeedSum(SeedMid(ifId), ifId / 0x400_0000_0000, ifId * 0x40 % 0x10000);
  }

  lemma SeedSum(m: nat, h: nat, l: nat)
    requires m < 0x1000 && h < 0x40 && l % 0x40 == 0
    ensures Xor(m, Or(h, l)) % 0x1000 == Xor(m, (h + l) % 0x1000)
  {
    hide *;
    OrSixBits(h, l);
    XorTwelves(m, h + l);
  }

  lemma FirstSeedMid(ifId: nat)
    ensures FirstSeed(ifId)
      == Xor(SeedMid(ifId), Or(ifId / 0x400_0000_0000 % 0x10000, ifId * 0x40 % 0x10000)) % 0x1000
    ensures SeedMid(ifId) < 0x1000
  {
    hide Xor, Or;
  }

  lemma LastPart(ifId: nat)
    requires ifId < 0x1_0000_0000_0000
    ensures var h, l := ifId / 0x400_0000_0000, ifId * 0x40 % 0x10000;
      && h % 0x10000 == h < 0x40 && l % 0x40 == 0 && (h + l) % 0x1000 == h + ifId % 0x40 * 0x40
  {
    var h, q, u, r := ifId / 0x400_0000_0000, ifId / 0x400, ifId % 0x400 / 0x40, ifId % 0x400 % 0x40;
    assert ifId == q * 0x400 + (u * 0x40 + r);
    assert h < 0x40;
    ModUnique(h, 0x10000, 0, h);
    ModUnique(ifId, 0x40, q * 0x10 + u, r);
    ModUnique(ifId * 0x40, 0x10000, q, u * 0x1000 + r * 0x40);
    ModUnique(u * 0x1000 + r * 0x40, 0x40, u * 0x40 + r, 0);
    ModUnique(h + u * 0x1000 + r * 0x40, 0x1000, u, h + r * 0x40);
  }

  lemma OrSixBits(h: nat, l: nat)
    requires h < 0x40 && l % 0x40 == 0
    ensures Or(h, l) == h + l
  {
    assert Pow2(6) == 0x40;
    OrDisjoint(l, h, 6);
    OrSwap(h, l);
  }

  lemma SameMid(a: nat, b: nat)
    requires a / 0x40 == b / 0x40
    ensures SeedMid(a) == SeedMid(b) && a / 0x400_0000_0000 == b / 0x400_0000_0000
    ensures a % 0x40 == b % 0x40 ==> a == b
  {
    hide Xor;
    assert a / 0x4000_0000 == a / 0x40 / 0x100_0000 && b / 0x4000_0000 == b / 0x40 / 0x100_0000;
    assert a / 0x4_0000 == a / 0x40 / 0x1000 && b / 0x4_0000 == b / 0x40 / 0x1000;
    assert a / 0x400_0000_0000 == a / 0x40 / 0x10_0000_0000 && b / 0x400_0000_0000 == b / 0x40 / 0x10_0000_0000;
  }

  function SeedLcg(ifId: nat): Lcg { Lcg(1, SeedStep(ifId), 12) }

  lemma SeedStepIsOdd(ifId: nat)
    ensures SeedStep(ifId) % 2 == 1 && SeedLcg(ifId).FullPeriod()
  {
    var x := Xor(Xor(Xor(ifId / 0x10_0000_0000, ifId / 0x100_0000), ifId / 0x1000), ifId) % 0x10000;
    OrDisjoint(x * 2 % 0x10000, 1, 1);
  }

  /** All 4096 seeds come up before one repeats. */
  lemma SeedCycle(ifId: nat, seed: nat, i: nat, j: nat)
    requires seed < 0x1000 && i < j < i + 0x1000
    ensures Iter(SeedLcg(ifId), seed, i) != Iter(SeedLcg(ifId), seed, j)
    ensures Iter(SeedLcg(ifId), seed, 0x1000) == seed
  {
    SeedStepIsOdd(ifId);
    WordSizes();
    hide Pow2, Iter, SeedStep;
    NoRepeat(SeedLcg(ifId), seed, i, j);
    Periodic(SeedLcg(ifId), seed);
  }

  lemma SeedReaches(ifId: nat, seed: nat, a: nat) returns (n: nat)
    requires seed < 0x1000 && a < 0x1000
    ensures n < 0x1000 && Iter(SeedLcg(ifId), seed, n) == a
  {
    SeedStepIsOdd(ifId);
    WordSizes();
    hide Pow2, Iter, SeedStep;
    n := FullCycle(SeedLcg(ifId), seed, a);
  }

  /** What next_seed folds into the last digits of the interface ID. */
  function Upper(ifId: nat): nat {
    Xor(Xor(ifId / 0x10_0000_0000, ifId / 0x100_0000), ifId / 0x1000)
  }

  lemma StepUnfolded(ifId: nat)
    ensures SeedStep(ifId) == Or(Xor(Upper(ifId), ifId) % 0x10000 * 2 % 0x10000, 1)
  {}

  /** Of a step, the 12-bit seed takes 11 bits of the folded ID, and the lowest bit is 1. */
  lemma StepDigits(ifId: nat)
    ensures SeedStep(ifId) % 0x1000 == 2 * Xor(Upper(ifId) % 0x800, ifId % 0x800) + 1
  {
    hide *;
    StepUnfolded(ifId);
    OddStep(Xor(Upper(ifId), ifId));
    XorElevens(Upper(ifId), ifId);
  }

  lemma OddStep(x: nat)
    ensures Or(x % 0x10000 * 2 % 0x10000, 1) % 0x1000 == 2 * (x % 0x800) + 1
  {
    assert Pow2(1) == 2;
    OrDisjoint(x % 0x10000 * 2 % 0x10000, 1, 1);
    hide Or, Pow2;
    DropBits(x);
  }

  lemma DropBits(x: nat)
    ensures (x % 0x10000 * 2 % 0x10000 + 1) % 0x1000 == 2 * (x % 0x800) + 1
  {
    var q, u, v := x / 0x8000, x % 0x8000 / 0x800, x % 0x8000 % 0x800;
    assert x == q * 0x8000 + (u * 0x800 + v);
    var r := q % 2 * 0x8000 + (u * 0x800 + v);
    ModUnique(x, 0x10000, q / 2, r);
    ModUnique(r * 2, 0x10000, q % 2, 2 * (u * 0x800 + v));
    ModUnique(x, 0x800, q * 0x10 + u, v);
    ModUnique(2 * (u * 0x800 + v) + 1, 0x1000, u, 2 * v + 1);
  }

  /** Two interfaces take equal steps if and only if the last 11 bits of their IDs differ
      just as the bits folded into them do. */
  lemma StepsAgree(a: nat, b: nat)
    ensures SeedStep(a) % 0x1000 == SeedStep(b) % 0x1000 <==> Xor(a, b) % 0x800 == Xor(Upper(a), Upper(b)) % 0x800
  {
    hide *;
    StepDigits(a);
    StepDigits(b);
    XorElevens(a, b);
    XorElevens(Upper(a), Upper(b));
    XorSwap(Upper(a) % 0x800, a % 0x800, Upper(b) % 0x800, b % 0x800);
  }

  /** In one block of 4096 IDs, equal steps come only from IDs a multiple of 2048 apart. */
  lemma StepsInOneBlock(a: nat, b: nat)
    requires a / 0x1000 == b / 0x1000
    ensures SeedStep(a) % 0x1000 == SeedStep(b) % 0x1000 <==> a % 0x800 == b % 0x800
    ensures a < b < a + 0x800 ==> SeedStep(a) % 0x1000 != SeedStep(b) % 0x1000
  {
    SameUpper(a, b);
    hide *;
    StepsAgree(a, b);
    XorZero(Upper(a), Upper(b));
    XorElevens(a, b);
    XorZero(a % 0x800, b % 0x800);
    if a < b < a + 0x800 { NearDiffer(a, b); }
  }

  lemma NearDiffer(a: nat, b: nat)
    requires a < b < a + 0x800
    ensures a % 0x800 != b % 0x800
  {}

  /** The parts of the ID that a step is folded from. */
  function StepParts(ifId: nat): seq<nat> {
    [ifId / 0x10_0000_0000 % 0x800, ifId / 0x100_0000 % 0x800, ifId / 0x1000 % 0x800, ifId % 0x800]
  }

  /** Every part counts: IDs that differ in one of them only take different steps. */
  lemma StepPartsCount(a: nat, b: nat, j: nat)
    requires j < 4 && forall i | 0 <= i < 4 && i != j :: StepParts(a)[i] == StepParts(b)[i]
    ensures SeedStep(a) % 0x1000 == SeedStep(b) % 0x1000 <==> StepParts(a)[j] == StepParts(b)[j]
  {
    hide Xor, Or, SeedStep, Fold, Upper;
    StepIsFold(a);
    StepIsFold(b);
    FoldCounts(StepParts(a), StepParts(b), j);
  }

  lemma StepIsFold(ifId: nat)
    ensures SeedStep(ifId) % 0x1000 == 2 * Fold(StepParts(ifId)) + 1
  {
    hide *;
    StepDigits(ifId);
    UpperElevens(ifId);
    PartsOfStep(ifId);
    FoldFour(ifId / 0x10_0000_0000 % 0x800, ifId / 0x100_0000 % 0x800, ifId / 0x1000 % 0x800, ifId % 0x800);
  }

  lemma PartsOfStep(ifId: nat)
    ensures StepParts(ifId)
      == [ifId / 0x10_0000_0000 % 0x800, ifId / 0x100_0000 % 0x800, ifId / 0x1000 % 0x800, ifId % 0x800]
  {}

  lemma UpperElevens(ifId: nat)
    ensures Upper(ifId) % 0x800
      == Xor(Xor(ifId / 0x10_0000_0000 % 0x800, ifId / 0x100_0000 % 0x800), ifId / 0x1000 % 0x800)
  {
    hide Xor;
    XorElevens(Xor(ifId / 0x10_0000_0000, ifId / 0x100_0000), ifId / 0x1000);
    XorElevens(ifId / 0x10_0000_0000, ifId / 0x100_0000);
  }

  lemma SameUpper(a: nat, b: nat)
    requires a / 0x1000 == b / 0x1000
    ensures Upper(a) == Upper(b)
  {
    hide Xor;
    assert a / 0x100_0000 == a / 0x1000 / 0x1000 && b / 0x100_0000 == b / 0x1000 / 0x1000;
    assert a / 0x10_0000_0000 == a / 0x1000 / 0x100_0000 && b / 0x10_0000_0000 == b / 0x1000 / 0x100_0000;
  }

  /** Across two blocks, interfaces less than 2048 apart can take equal steps. */
  lemma StepsCanAgree()
    ensures SeedStep(0x801) % 0x1000 == SeedStep(0x1000) % 0x1000
  {
    assert Xor(Xor(Xor(0, 0), 0), 0x801) == 0x801;
    assert Xor(Xor(0, 0), 1) == 1;
    assert Xor(1, 0x1000) == 0x1001 by {
      assert Xor(0, 0x800) == 0x800;
    }
    OrDisjoint(0x1002, 1, 1);
    OrDisjoint(0x2002, 1, 1);
  }

  datatype FlowState = EXITED | ALLOCATE_FOR_CID | SLEEPING | SEND_RID

  class AliasAllocator {
    const ifId: nat
    const localAliases: AliasCache
    const remoteAliases: AliasCache
    var seed: nat
    var state: FlowState
    var pendingAlias: nat
    var cidFrameSequence: nat
    var conflictDetected: bool

    ghost predicate Valid()
      reads this, localAliases, localAliases.pool, remoteAliases, remoteAliases.pool
    {
      && localAliases != remoteAliases && localAliases.pool != remoteAliases.pool
      && localAliases.Valid() && remoteAliases.Valid()
      && seed < 0x1000 && pendingAlias < 0x1000
      && (state == ALLOCATE_FOR_CID ==> 4 <= cidFrameSequence <= 7)
      && (state != EXITED ==> PlainAlias(pendingAlias))
    }

    /** The flow as the protocol sees it. */
    function View(): Allocator
      reads this
    {
      match state
      case EXITED => Restarted
      case ALLOCATE_FOR_CID => Allocator(Checking(cidFrameSequence), pendingAlias, conflictDetected)
      case SLEEPING => Allocator(Sleeping, pendingAlias, conflictDetected)
      case SEND_RID => Allocator(Reserving, pendingAlias, conflictDetected)
    }

    /** Some alias is free as far as this node knows. */
    ghost predicate SomeUnknown()
      reads this, localAliases, remoteAliases
    {
      exists a :: PlainAlias(a) && a !in localAliases.aliasMap && a !in remoteAliases.aliasMap
    }

    constructor (ifId: nat, localAliases: AliasCache, remoteAliases: AliasCache)
      requires localAliases != remoteAliases && localAliases.pool != remoteAliases.pool
      requires localAliases.Valid() && remoteAliases.Valid()
      ensures Valid() && View() == Restarted
      ensures seed == FirstSeed(ifId) && pendingAlias == 0
      ensures this.ifId == ifId && this.localAliases == localAliases && this.remoteAliases == remoteAliases
    {
      this.ifId, this.localAliases, this.remoteAliases := ifId, localAliases, remoteAliases;
      state, pendingAlias, cidFrameSequence, conflictDetected := EXITED, 0, 0, false;
      seed := FirstSeed(ifId);
    }

    method NextSeed()
      requires seed < 0x1000
      modifies this`seed
      ensures seed == Step(SeedLcg(ifId), old(seed)) < 0x1000
    {
      WordSizes();
      var offset := Xor(Xor(Xor(ifId / 0x10_0000_0000, ifId / 0x100_0000), ifId / 0x1000), ifId) % 0x10000;
      offset := offset * 2 % 0x10000;
      offset := Or(offset, 1);
      seed := (seed + offset) % 0x1000;
    }

    /** Walks the seeds until one is an alias that neither cache knows; `n` is the number rejected. */
    method GetNewSeed() returns (alias: nat, ghost n: nat)
      requires Valid() && SomeUnknown()
      modifies this`seed, localAliases, localAliases.pool, remoteAliases, remoteAliases.pool
      ensures Valid() && n < 0x1000
      ensures localAliases.aliasMap == old(localAliases.aliasMap) && remoteAliases.aliasMap == old(remoteAliases.aliasMap)
      ensures PlainAlias(alias) && alias !in localAliases.aliasMap && alias !in remoteAliases.aliasMap
      ensures alias == Iter(SeedLcg(ifId), old(seed), n) && seed == Iter(SeedLcg(ifId), old(seed), n + 1)
      ensures forall i | 0 <= i < n :: var s := Iter(SeedLcg(ifId), old(seed), i);
        s == 0 || s in localAliases.aliasMap || s in remoteAliases.aliasMap
    {
      hide Iter, Step, SeedStep, SeedLcg, Pow2, And, Or, Xor, IndexOfId, IndexOfAlias, Touched, Distinct,
        AliasCache.Valid, AliasCache.Entries;
      ghost var g, s0 := SeedLcg(ifId), seed;
      ghost var unused :| PlainAlias(unused) && unused !in localAliases.aliasMap && unused !in remoteAliases.aliasMap;
      ghost var last := SeedReaches(ifId, s0, unused);
      n := 0;
      NoSteps(g, s0);
      while true
        invariant Valid() && n <= last
        invariant localAliases.aliasMap == old(localAliases.aliasMap) && remoteAliases.aliasMap == old(remoteAliases.aliasMap)
        invariant seed == Iter(g, s0, n)
        invariant forall i | 0 <= i < n :: var s := Iter(g, s0, i);
          s == 0 || s in localAliases.aliasMap || s in remoteAliases.aliasMap
        decreases last - n
      {
        alias := seed;
        NextSeed();
        IterLast(g, s0, n);
        if alias != 0 {
          var here := localAliases.LookupAlias(alias);
          if here == 0 {
            var there := remoteAliases.LookupAlias(alias);
            if there == 0 {
              return;
            }
          }
        }
        n := n + 1;
      }
    }

    /** A request for a new alias, or for the given one. */
    method Send(alias: nat)
      requires Valid() && state == EXITED && alias < 0x1000
      modifies this`pendingAlias
      ensures Valid() && View() == Restarted && pendingAlias == alias
    {
      pendingAlias := alias;
    }

    method Entry()
      requires Valid() && state == EXITED && (pendingAlias == 0 ==> SomeUnknown())
      modifies this, localAliases, localAliases.pool, remoteAliases, remoteAliases.pool
      ensures Valid() && View() == OnStart(pendingAlias)
      ensures state == ALLOCATE_FOR_CID && cidFrameSequence == 7 && !conflictDetected
      ensures old(pendingAlias) == 0 ==> pendingAlias !in localAliases.aliasMap && pendingAlias !in remoteAliases.aliasMap
      ensures old(pendingAlias) != 0 ==>
        && pendingAlias == old(pendingAlias) && seed == old(seed)
        && localAliases.Entries() == old(localAliases.Entries()) && remoteAliases.Entries() == old(remoteAliases.Entries())
      ensures localAliases.aliasMap == old(localAliases.aliasMap) && remoteAliases.aliasMap == old(remoteAliases.aliasMap)
    {
      hide AliasCache.Valid, AliasCache.Entries, Iter, SeedLcg;
      cidFrameSequence := 7;
      conflictDetected := false;
      if pendingAlias == 0 {
        var alias, _ := GetNewSeed();
        pendingAlias := alias;
      }
      state := ALLOCATE_FOR_CID;
    }

    /** Burns the alias under test; the flow goes back to Entry. */
    method HandleAliasConflict()
      requires Valid()
      modifies this`state, this`pendingAlias
      ensures Valid() && View() == Restarted && pendingAlias == 0
    {
      pendingAlias := 0;
      state := EXITED;
    }

    method SendCidFrame(me: int) returns (out: seq<Frame>)
      requires Valid() && state == ALLOCATE_FOR_CID
      modifies this`state, this`pendingAlias, this`cidFrameSequence
      ensures Valid() && (View(), out) == OnSendCheck(old(View()), me)
      ensures pendingAlias == if conflictDetected then 0 else old(pendingAlias)
    {
      if conflictDetected {
        HandleAliasConflict();
        return [];
      }
      out := [Frame(pendingAlias, CheckId(me, cidFrameSequence))];
      cidFrameSequence := cidFrameSequence - 1;
      if cidFrameSequence < 4 {
        // Number 4 was the last check frame.
        state := SLEEPING;
      }
    }

    /** From the start to the wait, if no conflict comes in between. */
    method SendChecks(me: int) returns (out: seq<Frame>)
      requires Valid() && state == EXITED && (pendingAlias == 0 ==> SomeUnknown())
      modifies this, localAliases, localAliases.pool, remoteAliases, remoteAliases.pool
      ensures Valid() && state == SLEEPING && !conflictDetected && PlainAlias(pendingAlias)
      ensures old(pendingAlias) != 0 ==> pendingAlias == old(pendingAlias)
      ensures var a := pendingAlias;
        out == [Frame(a, CheckId(me, 7)), Frame(a, CheckId(me, 6)), Frame(a, CheckId(me, 5)), Frame(a, CheckId(me, 4))]
    {
      hide AliasCache.Valid, AliasCache.Entries, SomeUnknown;
      Entry();
      out := [];
      ghost var a := pendingAlias;
      while state == ALLOCATE_FOR_CID
        invariant Valid() && !conflictDetected && pendingAlias == a && PlainAlias(a)
        invariant state == ALLOCATE_FOR_CID || state == SLEEPING
        invariant |out| == if state == SLEEPING then 4 else 7 - cidFrameSequence
        invariant forall i | 0 <= i < |out| :: out[i] == Frame(a, CheckId(me, 7 - i))
        decreases state == ALLOCATE_FOR_CID, cidFrameSequence
      {
        var more := SendCidFrame(me);
        out := out + more;
      }
    }

    method WaitDone()
      requires Valid() && state == SLEEPING
      modifies this`state, this`pendingAlias
      ensures Valid() && View() == OnTimer(old(View()))
      ensures pendingAlias == if conflictDetected then 0 else old(pendingAlias)
    {
      if conflictDetected {
        HandleAliasConflict();
      } else {
        state := SEND_RID;
      }
    }

    /** Claims the alias, and keeps it in the local cache as reserved but unused. */
    method SendRidFrame() returns (out: seq<Frame>, reserved: bool)
      requires Valid() && state == SEND_RID
      modifies this`state, this`pendingAlias, localAliases, localAliases.pool
      ensures Valid() && (View(), out, reserved) == OnSendReservation(old(View()))
      ensures reserved <==> !conflictDetected
      ensures conflictDetected ==> pendingAlias == 0
      ensures localAliases.Entries() ==
        if reserved
        then Added(old(localAliases.Entries()), localAliases.pool.Length, ReservedId(old(pendingAlias)), old(pendingAlias))
        else old(localAliases.Entries())
    {
      hide AliasCache.Valid, AliasCache.Entries, Added, Reported, Distinct;
      if conflictDetected {
        HandleAliasConflict();
        return [], false;
      }
      out := [Frame(pendingAlias, ReserveId(-1))];
      var _ := localAliases.Add(RESERVED_ALIAS_NODE_BITS + pendingAlias, pendingAlias);
      state := EXITED;
      reserved := true;
    }

    /** Hands out an alias that was reserved before, if there is one; else the caller has
        to wait. Also tells whether another alias is to be reserved. */
    method GetAllocatedAlias(destinationId: nat, reserveUnused: bool) returns (alias: nat, waits: bool, allocateNew: bool)
      requires Valid() && IdOk(destinationId)
      modifies localAliases, localAliases.pool
      ensures Valid() && waits == (alias == 0)
      ensures alias != 0 <==> exists e :: FirstAbove(old(localAliases.Entries()), e) && IsReservedId(e.id) && e.id == ReservedId(e.alias)
      ensures ReservedEntriesOk(old(localAliases.Entries())) ==> (alias != 0 <==> AnyReserved(old(localAliases.Entries())))
      ensures alias == 0 ==> localAliases.Entries() == old(localAliases.Entries())
      ensures alias != 0 ==>
        && FirstAbove(old(localAliases.Entries()), RecencyList.Entry.Entry(ReservedId(alias), alias))
        && localAliases.Entries() == Added(old(localAliases.Entries()), localAliases.pool.Length, destinationId, alias)
      ensures allocateNew <==> alias == 0 || (reserveUnused && !AnyReserved(localAliases.Entries()))
    {
      hide AliasCache.Valid, AliasCache.Entries, Added, Reported, Distinct, Or, FirstAbove;
      var found, e := localAliases.NextEntry(ReservedId(0));
      alias, waits, allocateNew := 0, false, false;
      FirstAboveIs(localAliases.Entries(), found, e);
      if found {
        FirstAboveReserved(localAliases.Entries(), e);
      }
      if found && e.id == Or(RESERVED_ALIAS_NODE_BITS, e.alias) {
        alias := e.alias;
        var _ := localAliases.Add(destinationId, alias);
        if reserveUnused {
          var more, next := localAliases.NextEntry(ReservedId(0));
          ReservedAbove(localAliases.Entries(), more, next);
          if !more || !IsReservedId(next.id) {
            allocateNew := true;
          }
        }
      } else {
        allocateNew := true;
        waits := true;
      }
    }

    /** Called for every frame that carries the alias under test. Tells whether the
        timer is triggered, so that a sleeping flow goes on at once. */
    method ConflictHandlerSend(f: Frame) returns (woken: bool)
      requires Valid() && state != EXITED && f.alias == pendingAlias
      modifies this`conflictDetected
      ensures Valid() && View() == OnConflictFrame(old(View()), f)
      ensures woken <==> state == SLEEPING && !old(View()).conflict
    {
      if conflictDetected {
        return false;
      }
      conflictDetected := true;
      woken := state == SLEEPING;
    }
  }

  /** Reserved aliases are stored under the node ID made from them. */
  ghost predicate ReservedEntriesOk(es: seq<Entry>) {
    forall e | e in es && IsReservedId(e.id) :: e.id == ReservedId(e.alias)
  }

  /** Reserving an alias and assigning one both keep it so. */
  lemma ReservedEntriesStay(es: seq<Entry>, capacity: nat, id: nat, alias: nat)
    requires ReservedEntriesOk(es) && capacity > 0 && (IsReservedId(id) ==> id == ReservedId(alias))
    ensures ReservedEntriesOk(Added(es, capacity, id, alias))
  {
    var r, rest := Added(es, capacity, id, alias), Purged(es, id, alias);
    AddedAt(es, capacity, id, alias);
    var pos := PurgedAt(es, id, alias);
    hide Added, Purged;
    forall k | 0 <= k < |r| && IsReservedId(r[k].id) ensures r[k].id == ReservedId(r[k].alias) {
      if k > 0 { assert r[k] == rest[k - 1] == es[pos[k - 1]]; }
    }
  }

  /** Lookups and removals keep it so as well. */
  lemma ReservedEntriesKept(es: seq<Entry>, i: nat)
    requires ReservedEntriesOk(es)
    ensures ReservedEntriesOk(Touched(es, i)) && ReservedEntriesOk(Without(es, i))
  {
    if i < |es| {
      hide Touched;
      TouchedAt(es, i);
      SameMembers(es, Touched(es, i));
    }
  }

  /** The first entry above the reserved node IDs' base, in the order of node IDs. */
  ghost predicate FirstAbove(es: seq<Entry>, e: Entry) {
    e in es && e.id > ReservedId(0) && forall x | x in es && x.id > ReservedId(0) :: e.id <= x.id
  }

  ghost predicate AnyReserved(es: seq<Entry>) { exists e :: e in es && ReservedId(0) < e.id && IsReservedId(e.id) }

  /** The smallest entry above the first reserved node ID tells whether there is a reserved one. */
  lemma ReservedAbove(es: seq<Entry>, found: bool, e: Entry)
    requires found <==> exists k: nat :: k < |es| && es[k].id > ReservedId(0)
    requires found ==> e in es && e.id > ReservedId(0) && forall k: nat | k < |es| && es[k].id > ReservedId(0) :: e.id <= es[k].id
    ensures AnyReserved(es) <==> found && IsReservedId(e.id)
  {
    if AnyReserved(es) {
      var x :| x in es && ReservedId(0) < x.id && IsReservedId(x.id);
      var k: nat :| k < |es| && es[k] == x;
      assert es[k].id > ReservedId(0);
    }
  }

  lemma {:induction false} OrSelf(a: nat)
    ensures Or(a, a) == a
  {
    if a > 0 { OrSelf(a / 2); }
  }

  lemma FirstAboveIs(es: seq<Entry>, found: bool, e: Entry)
    requires found <==> exists k: nat :: k < |es| && es[k].id > ReservedId(0)
    requires found ==> e in es && e.id > ReservedId(0) && forall k: nat | k < |es| && es[k].id > ReservedId(0) :: e.id <= es[k].id
    requires Distinct(es)
    ensures forall x :: FirstAbove(es, x) <==> found && x == e
    ensures ReservedEntriesOk(es) ==> (AnyReserved(es) <==> found && e.id == ReservedId(e.alias) && IsReservedId(e.id))
  {
    ReservedAbove(es, found, e);
    forall x ensures FirstAbove(es, x) <==> found && x == e {
      if x in es && found {
        var i: nat :| i < |es| && es[i] == x;
        var j: nat :| j < |es| && es[j] == e;
      }
    }
  }

  /** The source's test for a reserved entry. */
  lemma FirstAboveReserved(es: seq<Entry>, e: Entry)
    requires Distinct(es) && FirstAbove(es, e)
    ensures e.id == Or(RESERVED_ALIAS_NODE_BITS, e.alias) <==> IsReservedId(e.id) && e.id == ReservedId(e.alias)
    ensures e.id == Or(RESERVED_ALIAS_NODE_BITS, e.alias) ==> PlainAlias(e.alias)
  {
    hide Or;
    var k: nat :| k < |es| && es[k] == e;
    assert AliasOk(es[k].alias);
    if e.alias == NOT_RESPONDING { OrSelf(NOT_RESPONDING); } else { SentinelIsSum(e.alias); }
  }

  lemma NoSteps(g: Lcg, s: nat)
    ensures Iter(g, s, 0) == s
  {}
}
