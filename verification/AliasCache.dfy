/** The alias cache (src/openlcb/AliasCache.cpp): a fixed pool of slots updated in
    place. Every operation is proved to act on the list of entries, newest first,
    as `RecencyList` says. */
module AliasCache {
  import opened Bits
  import opened LcgCycle
  import opened RecencyList
  import opened AliasSlots

  /** Increment of the generator, and the limit of its 48-bit seed. */
  const CONSTANT: nat := 0x1B0CA37ABA9
  const SEED_LIMIT: nat := 0x1_0000_0000_0000
  const GENERATOR := Lcg(513, CONSTANT, 48)

  /** The alias drawn from a seed. */
  function AliasOfSeed(seed: nat): nat {
    And(Xor(Xor(Xor(seed, seed / 0x1000), seed / 0x1000000), seed / 0x1000000000), 0xfff)
  }

  /** The i-th alias drawn when starting from `seed`. */
  function Drawn(seed: nat, i: nat): nat { AliasOfSeed(Iter(GENERATOR, seed, i)) }

  /** The entries after `n` draws: asking for a mapped alias makes it the newest. */
  function AfterDraws(es: seq<Entry>, seed: nat, n: nat): seq<Entry> {
    if n == 0 then es
    else
      var before, a := AfterDraws(es, seed, n - 1), Drawn(seed, n - 1);
      if a == 0 then before else Touched(before, IndexOfAlias(before, a))
  }

  /** Draw `n` is the first that gives an unmapped alias. */
  ghost predicate FirstUnmapped(seed: nat, n: nat, aliasMap: map<nat, nat>) {
    && Drawn(seed, n) != 0 && Drawn(seed, n) !in aliasMap
    && forall i | 0 <= i < n :: Drawn(seed, i) == 0 || Drawn(seed, i) in aliasMap
  }

  lemma FoundUnmapped(seed: nat, n: nat, aliasMap: map<nat, nat>)
    requires Drawn(seed, n) != 0 && Drawn(seed, n) !in aliasMap
    requires forall i | 0 <= i < n :: Drawn(seed, i) == 0 || Drawn(seed, i) in aliasMap
    ensures FirstUnmapped(seed, n, aliasMap) && PlainAlias(Drawn(seed, n))
  {
    DrawnBelow(Iter(GENERATOR, seed, n));
  }

  lemma NoDraws(es: seq<Entry>, seed: nat)
    ensures Iter(GENERATOR, seed, 0) == seed && AfterDraws(es, seed, 0) == es
  {}

  lemma DrawMeaning(es: seq<Entry>, seed: nat, n: nat)
    ensures Drawn(seed, n) == AliasOfSeed(Iter(GENERATOR, seed, n))
    ensures Step(GENERATOR, Iter(GENERATOR, seed, n)) == Iter(GENERATOR, seed, n + 1)
    ensures AfterDraws(es, seed, n + 1) ==
      var before, a := AfterDraws(es, seed, n), Drawn(seed, n);
      if a == 0 then before else Touched(before, IndexOfAlias(before, a))
  {
    IterLast(GENERATOR, seed, n);
    hide Iter, AliasOfSeed, Touched, IndexOfAlias, Step;
  }

  /** A seed below 4096 draws itself, so every alias is drawn by some seed. */
  lemma SmallSeedDrawsItself(a: nat)
    requires a < 0x1000
    ensures AliasOfSeed(a) == a
  {
    WordSizes();
    AndLowMask(a, 12);
  }

  lemma DrawnBelow(seed: nat)
    ensures AliasOfSeed(seed) < 0x1000
    ensures And((0x200 + 1) * seed + CONSTANT, 0xffffffffffff) == Step(GENERATOR, seed) < SEED_LIMIT
  {
    WordSizes();
    AndLowMask(Xor(Xor(Xor(seed, seed / 0x1000), seed / 0x1000000), seed / 0x1000000000), 12);
    AndLowMask(513 * seed + CONSTANT, 48);
  }

  /** The four digits of a seed, of 12 bits each. */
  function SeedDigits(seed: nat): seq<nat> {
    [seed % 0x1000, seed / 0x1000 % 0x1000, seed / 0x100_0000 % 0x1000, seed / 0x10_0000_0000 % 0x1000]
  }

  /** Every digit counts: seeds that differ in one of them only give different aliases. */
  lemma SeedDigitsCount(s: nat, t: nat, j: nat)
    requires j < 4 && forall i | 0 <= i < 4 && i != j :: SeedDigits(s)[i] == SeedDigits(t)[i]
    ensures AliasOfSeed(s) == AliasOfSeed(t) <==> SeedDigits(s)[j] == SeedDigits(t)[j]
  {
    hide Xor, And, AliasOfSeed, Fold;
    AliasIsFold(s);
    AliasIsFold(t);
    FoldCounts(SeedDigits(s), SeedDigits(t), j);
  }

  lemma AliasIsFold(seed: nat)
    ensures AliasOfSeed(seed) == Fold(SeedDigits(seed))
  {
    AliasTwelves(seed);
    hide Xor, And, AliasOfSeed, Fold;
    FoldFour(seed % 0x1000, seed / 0x1000 % 0x1000, seed / 0x100_0000 % 0x1000, seed / 0x10_0000_0000 % 0x1000);
  }

  lemma AliasTwelves(seed: nat)
    ensures AliasOfSeed(seed)
      == Xor(Xor(Xor(seed % 0x1000, seed / 0x1000 % 0x1000), seed / 0x100_0000 % 0x1000), seed / 0x10_0000_0000 % 0x1000)
  {
    hide Xor, And, Pow2;
    var a, b, c := seed / 0x1000, seed / 0x100_0000, seed / 0x10_0000_0000;
    WordSizes();
    AndLowMask(Xor(Xor(Xor(seed, a), b), c), 12);
    XorTwelves(Xor(Xor(seed, a), b), c);
    XorTwelves(Xor(seed, a), b);
    XorTwelves(seed, a);
  }

  /** Whatever the seed, every alias comes up within 2^48 draws. */
  lemma EveryAliasIsDrawn(seed: nat, a: nat) returns (n: nat)
    requires seed < SEED_LIMIT && PlainAlias(a)
    ensures n < SEED_LIMIT && Drawn(seed, n) == a != 0
  {
    WordSizes();
    n := FullCycle(GENERATOR, seed, a);
    SmallSeedDrawsItself(a);
  }

  class AliasCache {
    const pool: array<Metadata>
    var aliasMap: map<nat, nat>
    var idMap: map<nat, nat>
    var freeList: nat
    var oldest: nat
    var newest: nat
    var seed: nat

    /** The contents of `pool`. */
    ghost var slots: seq<Metadata>
    /** Used slots, newest first. */
    ghost var lru: seq<nat>
    /** Unused slots, in free list order. */
    ghost var free: seq<nat>

    ghost predicate Valid()
      reads this, pool
    {
      && 0 < pool.Length <= 0x1000
      && seed < SEED_LIMIT
      && slots == pool[..]
      && Consistent(slots, lru, free, newest, oldest, freeList)
      && Indexed(slots, lru, aliasMap, idMap)
    }

    ghost function Entries(): (es: seq<Entry>)
      reads this, pool
      requires Valid()
      ensures Distinct(es) && |es| == |lru| <= pool.Length
    {
      EntriesDistinct(slots, lru, aliasMap, idMap);
      EntriesOf(slots, lru)
    }

    constructor (seed: nat, entries: nat)
      requires 0 < entries <= 0x1000 && seed < SEED_LIMIT
      ensures Valid() && fresh(pool) && pool.Length == entries
      ensures Entries() == [] && this.seed == seed
      ensures lru == [] && free == Countdown(entries) && aliasMap == map[]
    {
      pool := new Metadata[entries](_ => Metadata(0, 0, NONE_ENTRY, NONE_ENTRY));
      this.seed := seed;
      new;
      Clear();
    }

    /** Forgets every pair; needs only an allocated pool. */
    method Clear()
      requires 0 < pool.Length <= 0x1000 && seed < SEED_LIMIT
      modifies this, pool
      ensures Valid() && Entries() == [] && seed == old(seed)
      ensures lru == [] && free == Countdown(pool.Length) && aliasMap == map[]
    {
      idMap, aliasMap := map[], map[];
      oldest, newest, freeList := NONE_ENTRY, NONE_ENTRY, NONE_ENTRY;
      lru, free := [], [];
      for i := 0 to pool.Length
        invariant seed == old(seed) && lru == [] && aliasMap == map[] && idMap == map[]
        invariant oldest == NONE_ENTRY && newest == NONE_ENTRY
        invariant free == Countdown(i) && freeList == At(free, 0)
        invariant forall k | 0 <= k < i :: pool[k].older == if k == 0 then NONE_ENTRY else k - 1
      {
        pool[i] := pool[i].(newer := NONE_ENTRY);
        pool[i] := pool[i].(older := freeList);
        freeList := i;
        free := Countdown(i + 1);
      }
      slots := pool[..];
    }

    /** Drops the pair whose stored alias is `alias`. */
    method Remove(alias: nat)
      requires Valid()
      modifies this, pool
      ensures Valid() && seed == old(seed)
      ensures PlainAlias(alias) ==> Entries() == Without(old(Entries()), IndexOfAlias(old(Entries()), alias))
      ensures alias !in old(aliasMap) ==>
        Entries() == old(Entries()) && lru == old(lru) && free == old(free) && aliasMap == old(aliasMap) && idMap == old(idMap)
      ensures alias in old(aliasMap) ==> Removed(old(slots), old(lru), old(free), old(aliasMap), old(idMap), old(Entries()), alias)
      ensures alias == NOT_RESPONDING ==>
        Entries() == Without(old(Entries()), IndexOfId(old(Entries()), old(MarkedNode())))
    {
      hide *;
      RemoveMeaning(alias);
      MarkMeaning();
      if alias in aliasMap {
        RemoveKnown(alias);
      }
    }

    /** The slot of a mapped alias has moved to the free list, and its entry is gone. */
    ghost predicate Removed(p: seq<Metadata>, lru0: seq<nat>, free0: seq<nat>, aliasMap0: map<nat, nat>,
                            idMap0: map<nat, nat>, es: seq<Entry>, alias: nat)
      reads this, pool
      requires Valid() && alias in aliasMap0
    {
      var slot := aliasMap0[alias];
      && slot < |slots| == |p| && slots[slot].alias == p[slot].alias == alias
      && free == [slot] + free0
      && aliasMap == aliasMap0 - {alias} && idMap == idMap0 - {p[slot].nodeId}
      && slot in lru0
      && lru == Without(lru0, Pos(lru0, slot)) && Entries() == Without(es, Pos(lru0, slot))
    }

    lemma RemovedEntries(p: seq<Metadata>, lru0: seq<nat>, free0: seq<nat>, aliasMap0: map<nat, nat>,
                         idMap0: map<nat, nat>, es: seq<Entry>, alias: nat)
      requires Valid() && alias in aliasMap0 && Removed(p, lru0, free0, aliasMap0, idMap0, es, alias)
      ensures var slot := aliasMap0[alias];
        && Entries() == Without(es, Pos(lru0, slot)) && slot < pool.Length && pool[slot].alias == alias
        && lru == Without(lru0, Pos(lru0, slot))
    {
      hide Without, Pos, Entries, Consistent, Indexed;
    }

    method RemoveKnown(alias: nat)
      requires Valid() && alias in aliasMap
      modifies this, pool
      ensures Valid() && seed == old(seed)
      ensures Removed(old(slots), old(lru), old(free), old(aliasMap), old(idMap), old(Entries()), alias)
      ensures Entries() == Without(old(Entries()), Pos(old(lru), old(aliasMap)[alias]))
    {
      hide Slots, Linked, FreeLinked, Released, Without, EntriesOf, Pos;
      var metadata := aliasMap[alias];
      assert AliasHit(slots, lru, aliasMap, alias);
      ghost var j := Pos(lru, metadata);
      LinkShape(slots, lru, free, j);
      aliasMap := aliasMap - {alias};
      idMap := idMap - {pool[metadata].nodeId};
      Unlink(metadata);
      ReleaseStep(old(slots), slots, lru, free, j, old(newest), old(oldest), old(freeList), old(aliasMap), old(idMap));
      lru, free := Without(lru, j), [metadata] + free;
    }

    /** The node's alias, or 0; makes the entry the newest. */
    method LookupId(id: nat) returns (alias: nat)
      requires Valid() && id != 0
      modifies this, pool
      ensures Valid() && seed == old(seed) && aliasMap == old(aliasMap) && idMap == old(idMap)
      ensures var es := old(Entries()); var i := IndexOfId(es, id);
        && Entries() == Touched(es, i) && lru == Touched(old(lru), i)
        && alias == if i < |es| then es[i].alias else 0
    {
      IndexMeaning(slots, lru, free, aliasMap, idMap, id);
      if id in idMap {
        var metadata := idMap[id];
        Touch(metadata);
        return Resolve(pool[metadata].alias);
      }
      return 0;
    }

    /** The node that holds an alias as stored, or 0; makes the entry the newest. */
    method LookupAlias(alias: nat) returns (id: nat)
      requires Valid()
      modifies this, pool
      ensures Valid() && seed == old(seed) && aliasMap == old(aliasMap) && idMap == old(idMap)
      ensures var es := old(Entries()); var i := IndexOfAlias(es, alias);
        alias < 0x1000 ==>
          && Entries() == (if alias == 0 then es else Touched(es, i))
          && id == if alias != 0 && i < |es| then es[i].id else 0
      ensures id != 0 <==> alias != 0 && alias in aliasMap
      ensures id != 0 ==> var es := old(Entries()); var i := Pos(old(lru), aliasMap[alias]);
        i < |es| && id == es[i].id && Entries() == Touched(es, i)
      ensures id == 0 ==> Entries() == old(Entries())
    {
      if alias == 0 {
        return 0;
      }
      Lookups(alias);
      StoredLookup(alias);
      hide IndexOfAlias, Pos, Touched, Entries, Consistent, Indexed;
      if alias in aliasMap {
        var metadata := aliasMap[alias];
        Touch(metadata);
        return pool[metadata].nodeId;
      }
      return 0;
    }

    /** Moves a used slot to the newest end. */
    method Touch(metadata: nat)
      requires Valid() && metadata in lru
      modifies this, pool
      ensures Valid() && seed == old(seed) && free == old(free)
      ensures aliasMap == old(aliasMap) && idMap == old(idMap)
      ensures metadata < |slots| == |old(slots)|
      ensures slots[metadata].alias == old(slots)[metadata].alias && slots[metadata].nodeId == old(slots)[metadata].nodeId
      ensures lru == Touched(old(lru), Pos(old(lru), metadata))
      ensures Entries() == Touched(old(Entries()), Pos(old(lru), metadata))
    {
      ghost var j := Pos(lru, metadata);
      TouchReady(slots, lru, free, metadata, newest, oldest, freeList);
      hide Slots, Linked, FreeLinked, MovedToFront, EntriesOf, Pos, Touched, Indexed;
      if metadata == newest {
        TouchedFront(lru);
        TouchedFront(Entries());
        return;
      }
      Relink(metadata);
      TouchStep(old(slots), slots, lru, free, j, old(newest), old(oldest), freeList, aliasMap, idMap);
      TouchKeepsKeys(old(slots), slots, metadata, old(newest));
      lru := Touched(lru, j);
    }

    /** The pointer edits of Touch. */
    method Relink(metadata: nat)
      requires metadata < pool.Length <= 0x1000 && slots == pool[..]
      requires var n, o := slots[metadata].newer, slots[metadata].older;
        && n < pool.Length && (o == NONE_ENTRY || o < pool.Length) && (o == NONE_ENTRY <==> metadata == oldest)
        && n != metadata && o != metadata && n != o
        && newest < pool.Length && newest != metadata && newest != o
      modifies this`newest, this`oldest, this`slots, pool
      ensures slots == pool[..] && MovedToFront(old(slots), slots, metadata, old(newest)) && newest == metadata
      ensures oldest == if metadata == old(oldest) then old(slots)[metadata].newer else old(oldest)
    {
      if metadata == oldest {
        oldest := pool[metadata].newer;
        pool[oldest] := pool[oldest].(older := NONE_ENTRY);
      } else {
        // an older slot exists
        pool[pool[metadata].older] := pool[pool[metadata].older].(newer := pool[metadata].newer);
      }
      pool[pool[metadata].newer] := pool[pool[metadata].newer].(older := pool[metadata].older);
      pool[metadata] := pool[metadata].(newer := NONE_ENTRY);
      pool[metadata] := pool[metadata].(older := newest);
      pool[newest] := pool[newest].(newer := metadata);
      newest := metadata;
      slots := pool[..];
    }

    /** Makes `alias` the alias of node `id`; whatever contradicts that, and in a
        full cache the oldest entry, goes. Returns the remove callback's calls,
        with the aliases as stored. */
    method Add(id: nat, alias: nat) returns (callbacks: seq<Entry>)
      requires Valid() && IdOk(id) && AliasOk(alias)
      modifies this, pool
      ensures Valid() && seed == old(seed)
      ensures Entries() == Added(old(Entries()), pool.Length, id, alias)
      ensures ResolveAll(callbacks) == Reported(old(Entries()), pool.Length, id, alias)
      ensures alias == NOT_RESPONDING && id !in old(idMap) && old(free) != [] ==>
        var s := old(free)[0];
        && lru == [s] + old(lru) && free == old(free)[1..] && aliasMap == old(aliasMap)[NOT_RESPONDING + s := s]
    {
      hide *;
      callbacks := Purge(id, alias);
      ghost var first := callbacks;
      var insert, evicted := TakeSlot();
      callbacks := callbacks + evicted;
      ResolveAllConcat(first, evicted);
      var stored := alias;
      if alias == NOT_RESPONDING {
        SentinelIsSum(insert);
        stored := Or(NOT_RESPONDING, insert);
        assert stored !in aliasMap; // checked at run time by the original
      }
      PutNewest(insert, id, stored, alias);
      AddedMeaning(old(Entries()), pool.Length, id, alias);
    }

    /** The removals of Add: the pair that has the alias, then the one that has the node. */
    method Purge(id: nat, alias: nat) returns (callbacks: seq<Entry>)
      requires Valid() && IdOk(id) && AliasOk(alias)
      modifies this, pool
      ensures Valid() && seed == old(seed)
      ensures Entries() == Purged(old(Entries()), id, alias)
      ensures ResolveAll(callbacks) == PurgedReport(old(Entries()), id, alias)
      ensures id !in idMap && (alias != NOT_RESPONDING ==> alias !in aliasMap)
      ensures alias == NOT_RESPONDING && id !in old(idMap) ==>
        lru == old(lru) && free == old(free) && aliasMap == old(aliasMap)
    {
      ghost var es := Entries();
      PurgeMeaning(es, id, alias);
      hide *;
      callbacks := [];
      ResolveAllConcat([], []);
      Lookups(alias);
      if alias != NOT_RESPONDING && alias in aliasMap {
        callbacks := RemoveSlot(aliasMap[alias]);
      }
      ghost var first := callbacks;
      Lookups(id);
      if id in idMap {
        var more := RemoveSlot(idMap[id]);
        ResolveAllConcat(first, more);
        callbacks := callbacks + more;
      }
      Lookups(id);
      Lookups(alias);
    }

    /** Removes the entry of a used slot and reports it. */
    method RemoveSlot(slot: nat) returns (callbacks: seq<Entry>)
      requires Valid() && slot in lru
      modifies this, pool
      ensures Valid() && seed == old(seed)
      ensures Entries() == Without(old(Entries()), Pos(old(lru), slot))
      ensures ResolveAll(callbacks) == [old(Entries())[Pos(old(lru), slot)]]
    {
      ghost var j := Pos(lru, slot);
      ghost var e := Entries()[j];
      assert e == EntryAt(slots, lru[j]) && slots[lru[j]] == pool[slot];
      UsedSlot(slots, lru, aliasMap, idMap, slot);
      hide Slots, Linked, FreeLinked, Indexed, Released, EntriesOf, Pos, Without, Removed, IndexOfAlias, IndexOfId;
      var nid := pool[slot].nodeId;
      Remove(pool[slot].alias);
      RemovedEntries(old(slots), old(lru), old(free), old(aliasMap), old(idMap), old(Entries()), old(pool[slot].alias));
      callbacks := [Entry(nid, pool[slot].alias)];
    }

    /** Finds a slot for a new entry: the head of the free list, or else that of the oldest entry. */
    method TakeSlot() returns (insert: nat, callbacks: seq<Entry>)
      requires Valid()
      modifies this, pool
      ensures seed == old(seed) && LooseValid(insert)
      ensures insert < 0x1000 && NOT_RESPONDING + insert !in aliasMap
      ensures aliasMap.Keys <= old(aliasMap).Keys && idMap.Keys <= old(idMap).Keys
      ensures var es := old(Entries()); var c := pool.Length;
        && LooseEntries(insert) == (if |es| < c then es else es[..c - 1])
        && ResolveAll(callbacks) == if |es| < c then [] else es[c - 1..]
      ensures old(free) != [] ==>
        insert == old(free)[0] && free == old(free)[1..] && lru == old(lru) && aliasMap == old(aliasMap)
    {
      FreeListMeaning();
      hide *;
      if freeList != NONE_ENTRY {
        insert := PopFree();
        callbacks := [];
      } else {
        insert, callbacks := EvictOldest();
      }
      NewSentinel(insert);
    }

    lemma AliasesOk()
      requires Valid()
      ensures forall i | 0 <= i < |Entries()| :: PlainAlias(Entries()[i].alias) || Entries()[i].alias == NOT_RESPONDING
    {}

    lemma SeedInRange()
      requires Valid()
      ensures seed < SEED_LIMIT
    {}

    lemma FreeListMeaning()
      requires Valid()
      ensures freeList != NONE_ENTRY <==> |Entries()| < pool.Length
      ensures freeList != NONE_ENTRY <==> free != []
      ensures ResolveAll([]) == []
    {}

    lemma NewSentinel(m: nat)
      requires LooseValid(m)
      ensures m < 0x1000 && NOT_RESPONDING + m !in aliasMap
    {
      SentinelUnused(slots, lru, free, m, aliasMap, idMap);
    }

    /** The two indexes find the entries. */
    lemma Lookups(key: nat)
      requires Valid()
      ensures var es := Entries();
        && (PlainAlias(key) ==> (key in aliasMap <==> IndexOfAlias(es, key) < |es|))
        && (PlainAlias(key) && key in aliasMap ==> aliasMap[key] in lru && Pos(lru, aliasMap[key]) == IndexOfAlias(es, key))
        && (key in idMap <==> IndexOfId(es, key) < |es|)
        && (key in idMap ==> idMap[key] in lru && Pos(lru, idMap[key]) == IndexOfId(es, key))
    {
      IndexMeaning(slots, lru, free, aliasMap, idMap, key);
    }

    /** The entries of all nodes, through the map. */
    lemma IdEntries()
      requires Valid()
      ensures forall d | d in idMap :: idMap[d] < pool.Length && Entry(d, Resolve(pool[idMap[d]].alias)) in Entries()
      ensures forall k: nat | k < |Entries()| :: Entries()[k].id in idMap
    {
      var es := Entries();
      forall d | d in idMap ensures idMap[d] < pool.Length && Entry(d, Resolve(pool[idMap[d]].alias)) in es {
        IndexMeaning(slots, lru, free, aliasMap, idMap, d);
        assert es[Pos(lru, idMap[d])] == EntryAt(slots, idMap[d]);
      }
      forall k: nat | k < |es| ensures es[k].id in idMap {
        IndexMeaning(slots, lru, free, aliasMap, idMap, es[k].id);
      }
    }

    lemma StoredLookup(alias: nat)
      requires Valid()
      ensures alias in aliasMap ==>
        && aliasMap[alias] in lru && aliasMap[alias] < |slots| && slots[aliasMap[alias]].nodeId != 0
        && Pos(lru, aliasMap[alias]) < |Entries()|
        && Entries()[Pos(lru, aliasMap[alias])].id == slots[aliasMap[alias]].nodeId
    {
      assert AliasHit(slots, lru, aliasMap, alias);
      if alias in aliasMap {
        var i := Pos(lru, aliasMap[alias]);
        var x := slots[lru[i]];
        assert StoredOk(x, lru[i]) && Entries()[i] == EntryAt(slots, lru[i]);
      }
    }

    lemma RemoveMeaning(alias: nat)
      requires Valid()
      ensures PlainAlias(alias) && alias !in aliasMap ==> Without(Entries(), IndexOfAlias(Entries(), alias)) == Entries()
      ensures PlainAlias(alias) && alias in aliasMap ==> Pos(lru, aliasMap[alias]) == IndexOfAlias(Entries(), alias)
    {
      Lookups(alias);
      hide Valid, Entries, IndexOfAlias, Pos;
    }

    method PopFree() returns (insert: nat)
      requires Valid() && freeList != NONE_ENTRY
      modifies this`freeList, this`free
      ensures LooseValid(insert) && LooseEntries(insert) == old(Entries())
      ensures old(free) != [] && insert == old(free)[0] && free == old(free)[1..]
    {
      PopStep(slots, lru, free, newest, oldest, freeList);
      hide Slots, Linked, FreeLinked, Indexed, EntriesOf;
      insert := freeList;
      freeList := pool[insert].older;
      free := free[1..];
    }

    method EvictOldest() returns (insert: nat, callbacks: seq<Entry>)
      requires Valid() && freeList == NONE_ENTRY
      modifies this, pool
      ensures seed == old(seed) && LooseValid(insert)
      ensures aliasMap.Keys <= old(aliasMap).Keys && idMap.Keys <= old(idMap).Keys
      ensures var es := old(Entries()); var c := pool.Length;
        |es| == c && LooseEntries(insert) == es[..c - 1] && ResolveAll(callbacks) == es[c - 1..]
    {
      hide Slots, Linked, FreeLinked, Indexed, EntriesOf, ResolveAll, CutOlder, Distinct, Loose;
      OldestReport();
      EvictStep(slots, lru, newest, oldest, aliasMap, idMap);
      insert := oldest;
      callbacks := [Entry(pool[insert].nodeId, pool[insert].alias)];
      UnlinkOldest();
      aliasMap := aliasMap - {pool[insert].alias};
      idMap := idMap - {pool[insert].nodeId};
      lru := lru[..|lru| - 1];
    }

    lemma OldestReport()
      requires Valid() && freeList == NONE_ENTRY
      ensures |Entries()| == pool.Length && oldest < pool.Length && lru != []
      ensures ResolveAll([Entry(slots[oldest].nodeId, slots[oldest].alias)]) == Entries()[pool.Length - 1..]
      ensures free == []
      ensures var n := slots[oldest].newer; n == NONE_ENTRY || (n < pool.Length && n != oldest)
    {
      LinkShape(slots, lru, free, |lru| - 1);
      assert Entries()[|lru| - 1] == EntryAt(slots, oldest);
    }

    /** As Valid, while slot `m` is on neither list. */
    ghost predicate LooseValid(m: nat)
      reads this, pool
    {
      && 0 < pool.Length <= 0x1000 && seed < SEED_LIMIT && slots == pool[..]
      && Loose(slots, lru, free, newest, oldest, freeList, m)
      && Indexed(slots, lru, aliasMap, idMap)
    }

    ghost function LooseEntries(m: nat): seq<Entry>
      reads this, pool
      requires LooseValid(m)
    {
      EntriesOf(slots, lru)
    }

    /** Cuts the oldest slot off the list of a full cache. */
    method UnlinkOldest()
      requires slots == pool[..] && oldest < pool.Length <= 0x1000
      requires var n := slots[oldest].newer; n == NONE_ENTRY || (n < pool.Length && n != oldest)
      modifies this`newest, this`oldest, this`slots, pool
      ensures slots == pool[..] == CutOlder(old(slots), old(slots)[old(oldest)].newer)
      ensures slots[old(oldest)].alias == old(slots)[old(oldest)].alias
      ensures slots[old(oldest)].nodeId == old(slots)[old(oldest)].nodeId
      ensures oldest == old(slots)[old(oldest)].newer
      ensures newest == if old(oldest) == old(newest) then NONE_ENTRY else old(newest)
    {
      var insert := oldest;
      var second := pool[insert].newer;
      if second != NONE_ENTRY {
        pool[second] := pool[second].(older := NONE_ENTRY);
      }
      if insert == newest {
        newest := NONE_ENTRY;
      }
      oldest := second;
      slots := pool[..];
    }

    /** Fills a loose slot and makes it the newest entry. */
    method PutNewest(insert: nat, id: nat, stored: nat, alias: nat)
      requires LooseValid(insert) && id !in idMap && stored !in aliasMap
      requires IdOk(id) && AliasOk(alias)
      requires stored == if alias == NOT_RESPONDING then NOT_RESPONDING + insert else alias
      modifies this, pool
      ensures Valid() && seed == old(seed)
      ensures Entries() == [Entry(id, alias)] + old(LooseEntries(insert))
      ensures lru == [insert] + old(lru) && free == old(free) && aliasMap == old(aliasMap)[stored := insert]
    {
      hide Slots, Linked, FreeLinked, Indexed, EntriesOf, Loose, Distinct;
      LooseFacts(slots, lru, free, newest, oldest, freeList, insert);
      aliasMap := aliasMap[stored := insert];
      idMap := idMap[id := insert];
      LinkNewest(insert, id, stored);
      InsertStep(old(slots), slots, lru, free, old(newest), old(oldest), freeList, old(aliasMap), old(idMap), insert, id, stored);
      lru := [insert] + lru;
    }

    /** The slot edits of PutNewest. */
    method LinkNewest(insert: nat, id: nat, stored: nat)
      requires insert < pool.Length <= 0x1000 && slots == pool[..] && newest != insert
      requires newest == NONE_ENTRY || newest < pool.Length
      requires newest == NONE_ENTRY ==> oldest == NONE_ENTRY
      modifies this`newest, this`oldest, this`slots, pool
      ensures slots == pool[..] && newest == insert
      ensures oldest == if old(newest) == NONE_ENTRY then insert else old(oldest)
      ensures slots[insert] == Metadata(id, stored, NONE_ENTRY, old(newest))
      ensures forall i | 0 <= i < |slots| && i != insert ::
        slots[i] == if i == old(newest) then old(slots)[i].(newer := insert) else old(slots)[i]
    {
      pool[insert] := pool[insert].(nodeId := id, alias := stored);
      // link the slot in as the newest
      pool[insert] := pool[insert].(newer := NONE_ENTRY);
      if newest == NONE_ENTRY {
        assert oldest == NONE_ENTRY; // checked at run time by the original
        pool[insert] := pool[insert].(older := NONE_ENTRY);
        oldest := insert;
      } else {
        pool[insert] := pool[insert].(older := newest);
        pool[newest] := pool[newest].(newer := insert);
      }
      newest := insert;
      slots := pool[..];
    }

    /** Visits the entries in the order of last use. */
    method ForEach() returns (visited: seq<Entry>)
      requires Valid()
      ensures visited == Entries()
    {
      visited := [];
      var idx := newest;
      ghost var k := 0;
      while idx != NONE_ENTRY
        invariant k <= |lru| && idx == At(lru, k)
        invariant visited == Entries()[..k]
        decreases |lru| - k
      {
        LinkShape(slots, lru, free, k);
        assert Entries()[k] == EntryAt(slots, idx);
        visited := visited + [Entry(pool[idx].nodeId, Resolve(pool[idx].alias))];
        idx := pool[idx].older;
        k := k + 1;
      }
    }

    /** The entry with the smallest node ID above `bound`. */
    method NextEntry(bound: nat) returns (found: bool, e: Entry)
      requires Valid()
      ensures found <==> exists k: nat :: k < |Entries()| && Entries()[k].id > bound
      ensures found ==>
        && e in Entries() && e.id > bound
        && forall k: nat | k < |Entries()| && Entries()[k].id > bound :: e.id <= Entries()[k].id
    {
      hide *;
      found, e := false, Entry(0, 0);
      IdEntries();
      var keys := idMap.Keys;
      while keys != {}
        invariant keys <= idMap.Keys
        invariant found ==> e in Entries() && e.id > bound
        invariant forall d | d in idMap && d !in keys :: d > bound ==> found && e.id <= d
        decreases |keys|
      {
        var d :| d in keys;
        keys := keys - {d};
        if d > bound && (!found || d < e.id) {
          found, e := true, Entry(d, Resolve(pool[idMap[d]].alias));
        }
      }
      if found {
        ghost var k: nat :| k < |Entries()| && Entries()[k] == e;
        assert Entries()[k].id > bound;
      }
    }

    /** The node marked as not responding in slot 0, the one slot whose mark reads like
        NOT_RESPONDING itself; 0 if there is none. */
    ghost function MarkedNode(): nat
      requires Valid()
      reads this, pool
    {
      if NOT_RESPONDING in aliasMap then
        assert AliasHit(slots, lru, aliasMap, NOT_RESPONDING);
        slots[aliasMap[NOT_RESPONDING]].nodeId
      else 0
    }

    /** The mark is an entry, and it is in slot 0. */
    lemma MarkIsEntry()
      requires Valid()
      ensures MarkedNode() != 0 ==> Entry(MarkedNode(), NOT_RESPONDING) in Entries()
      ensures NOT_RESPONDING in aliasMap ==>
        && aliasMap[NOT_RESPONDING] == 0 && 0 in lru && MarkedNode() != 0
        && Pos(lru, 0) == IndexOfId(Entries(), MarkedNode()) < |Entries()|
      ensures MarkedNode() == 0 ==> IndexOfId(Entries(), MarkedNode()) == |Entries()|
    {
      if NOT_RESPONDING in aliasMap {
        assert AliasHit(slots, lru, aliasMap, NOT_RESPONDING);
        var slot := aliasMap[NOT_RESPONDING];
        UsedSlot(slots, lru, aliasMap, idMap, slot);
        var i := Pos(lru, slot);
        var x := slots[lru[i]];
        assert StoredOk(x, lru[i]) && slot == 0;
        Lookups(x.nodeId);
        assert Entries()[i] == EntryAt(slots, lru[i]);
      } else {
        var i := IndexOfId(Entries(), 0);
        assert i < |Entries()| ==> IdOk(Entries()[i].id);
      }
    }

    lemma MarkMeaning()
      requires Valid()
      ensures NOT_RESPONDING in aliasMap ==> Pos(lru, aliasMap[NOT_RESPONDING]) == IndexOfId(Entries(), MarkedNode())
      ensures NOT_RESPONDING !in aliasMap ==> Without(Entries(), IndexOfId(Entries(), MarkedNode())) == Entries()
    {
      MarkIsEntry();
      hide Entries, Valid, IndexOfId, Pos;
    }

    /** Moving an entry to the front moves its slot alike. */
    lemma MarkMoves(lru0: seq<nat>, es: seq<Entry>, i: nat, marked: nat)
      requires Valid() && |lru0| == |es| && lru == Touched(lru0, i) && Entries() == Touched(es, i)
      requires forall j, k | 0 <= j < k < |lru0| :: lru0[j] != lru0[k]
      requires NOT_RESPONDING in aliasMap ==> 0 in lru0 && Pos(lru0, 0) < |es| && es[Pos(lru0, 0)].id == marked
      requires NOT_RESPONDING !in aliasMap ==> marked == 0
      ensures MarkedNode() == marked
    {
      if NOT_RESPONDING in aliasMap {
        MarkIsEntry();
        if i < |lru0| {
          TouchedAt(lru0, i);
          TouchedAt(es, i);
        }
        hide Touched, Entries, Valid, IndexOfId;
        var p := Pos(lru0, 0);
        var q := if i >= |lru0| then p else if p == i then 0 else if p < i then p + 1 else p;
        assert lru[q] == 0 && Entries()[q] == es[p];
        SlotOnce(q);
      }
    }

    lemma SlotOnce(q: nat)
      requires Valid() && q < |lru| && lru[q] == 0
      ensures Pos(lru, 0) == q
    {}

    /** What RemoteAliasCacheUpdater does when node `id` announces its alias. When
        the node was so far marked as not responding, the removal by alias takes the
        mark of slot 0 instead, whoever's that is. */
    method Announce(id: nat, alias: nat)
      requires Valid() && IdOk(id) && PlainAlias(alias)
      modifies this, pool
      ensures Valid() && seed == old(seed)
      ensures Entries() == Announced(old(Entries()), pool.Length, id, alias, old(MarkedNode()))
    {
      AliasesOk();
      hide *;
      ghost var es, marked := Entries(), MarkedNode();
      LruDistinct();
      MarkIsEntry();
      var oldAlias := LookupId(id);
      MarkMoves(old(lru), es, IndexOfId(es, id), marked);
      AnnouncedCases(es, pool.Length, id, alias, marked);
      if oldAlias == alias {
        return; // no change
      }
      MarkIsEntry();
      if oldAlias != 0 {
        Remove(oldAlias);
      }
      var _ := Add(id, alias);
    }

    lemma LruDistinct()
      requires Valid()
      ensures |lru| == |Entries()| && forall j, k | 0 <= j < k < |lru| :: lru[j] != lru[k]
    {}

    /** Draws pseudo-random aliases until one comes up that no entry has; `n` is
        the number of draws rejected. */
    method Generate() returns (alias: nat, ghost n: nat)
      requires Valid()
      requires exists a :: PlainAlias(a) && a !in aliasMap
      modifies this, pool
      ensures Valid() && aliasMap == old(aliasMap) && idMap == old(idMap)
      ensures PlainAlias(alias) && alias !in aliasMap
      ensures n < SEED_LIMIT && FirstUnmapped(old(seed), n, old(aliasMap)) && alias == Drawn(old(seed), n)
      ensures seed == Iter(GENERATOR, old(seed), n + 1)
      ensures Entries() == AfterDraws(old(Entries()), old(seed), n)
    {
      hide *;
      ghost var s0, es := seed, Entries();
      ghost var unused :| PlainAlias(unused) && unused !in aliasMap;
      SeedInRange();
      ghost var last := EveryAliasIsDrawn(seed, unused);
      n := 0;
      NoDraws(es, s0);
      while true
        invariant Valid() && n <= last && aliasMap == old(aliasMap) && idMap == old(idMap)
        invariant seed == Iter(GENERATOR, s0, n)
        invariant forall i | 0 <= i < n :: Drawn(s0, i) == 0 || Drawn(s0, i) in aliasMap
        invariant Entries() == AfterDraws(es, s0, n)
        decreases last - n
      {
        alias := Draw();
        DrawMeaning(es, s0, n);
        if alias != 0 {
          var owner := LookupAlias(alias);
          if owner == 0 {
            FoundUnmapped(s0, n, aliasMap);
            return;
          }
        }
        n := n + 1;
      }
    }

    /** The alias of the current seed; moves the seed on. */
    method Draw() returns (alias: nat)
      requires Valid()
      modifies this`seed
      ensures Valid() && Entries() == old(Entries())
      ensures alias == AliasOfSeed(old(seed)) < 0x1000 && seed == Step(GENERATOR, old(seed))
    {
      hide Slots, Consistent, Indexed, And, Xor;
      DrawnBelow(seed);
      alias := And(Xor(Xor(Xor(seed, seed / 0x1000), seed / 0x1000000), seed / 0x1000000000), 0xfff);
      seed := And((0x200 + 1) * seed + CONSTANT, 0xffffffffffff);
    }

    /** Takes a slot out of the doubly linked list and puts it on the free list. */
    method Unlink(metadata: nat)
      requires metadata < pool.Length <= 0x1000 && slots == pool[..]
      requires var n, o := slots[metadata].newer, slots[metadata].older;
        && (n == NONE_ENTRY || n < pool.Length) && (o == NONE_ENTRY || o < pool.Length)
        && n != metadata && o != metadata && (n == o ==> n == NONE_ENTRY)
      modifies this`freeList, this`newest, this`oldest, this`slots, pool
      ensures slots == pool[..] && Released(old(slots), slots, metadata, old(freeList)) && freeList == metadata
      ensures newest == if metadata == old(newest) then old(slots)[metadata].older else old(newest)
      ensures oldest == if metadata == old(oldest) then old(slots)[metadata].newer else old(oldest)
    {
      // A cleared slot has no alias to answer with.
      pool[metadata] := pool[metadata].(nodeId := 0);
      if pool[metadata].newer != NONE_ENTRY {
        pool[pool[metadata].newer] := pool[pool[metadata].newer].(older := pool[metadata].older);
      }
      if pool[metadata].older != NONE_ENTRY {
        pool[pool[metadata].older] := pool[pool[metadata].older].(newer := pool[metadata].newer);
      }
      if metadata == newest {
        newest := pool[metadata].older;
      }
      if metadata == oldest {
        oldest := pool[metadata].newer;
      }
      pool[metadata] := pool[metadata].(older := freeList);
      freeList := metadata;
      slots := pool[..];
    }
  }

  lemma AnnouncedCases(es: seq<Entry>, capacity: nat, id: nat, alias: nat, marked: nat)
    requires capacity > 0
    ensures var i := IndexOfId(es, id); var t := Touched(es, i);
      Announced(es, capacity, id, alias, marked)
      == if i == |es| then Added(t, capacity, id, alias)
         else if es[i].alias == alias then t
         else if es[i].alias == NOT_RESPONDING then Added(Without(t, IndexOfId(t, marked)), capacity, id, alias)
         else Added(Without(t, IndexOfAlias(t, es[i].alias)), capacity, id, alias)
    ensures forall t: seq<Entry> :: Without(t, |t|) == t
  {}

  /** Two marked nodes in a cache of two slots. Node 1 announces its alias, and it is
      node 2 whose mark is lost. */
  method AnnouncementLosesMark(seed: nat) returns (cache: AliasCache, ghost before: seq<Entry>)
    requires seed < SEED_LIMIT
    ensures cache.Valid() && fresh(cache) && before == [Entry(2, NOT_RESPONDING), Entry(1, NOT_RESPONDING)]
    ensures cache.Entries() == [Entry(1, 0x222)]
  {
    hide *;
    cache := new AliasCache(seed, 2);
    TwoFree();
    cache.Lookups(1);
    NoEntry(1);
    var _ := cache.Add(1, NOT_RESPONDING);
    AddedFirst();
    cache.Lookups(2);
    var _ := cache.Add(2, NOT_RESPONDING);
    AddedSecond();
    before := cache.Entries();
    cache.MarkIsEntry();
    cache.Announce(1, 0x222);
    MarkLost(cache.pool.Length);
  }

  lemma TwoFree()
    ensures Countdown(2) == [1, 0]
    ensures IdOk(1) && IdOk(2) && AliasOk(NOT_RESPONDING) && PlainAlias(0x222)
  {}

  lemma NoEntry(id: nat)
    ensures IndexOfId([], id) == 0
  {}

  lemma AddedFirst()
    ensures Added([], 2, 1, NOT_RESPONDING) == [Entry(1, NOT_RESPONDING)]
    ensures IndexOfId([Entry(1, NOT_RESPONDING)], 2) == 1
  {}

  lemma AddedSecond()
    ensures Added([Entry(1, NOT_RESPONDING)], 2, 2, NOT_RESPONDING) == [Entry(2, NOT_RESPONDING), Entry(1, NOT_RESPONDING)]
    ensures Pos([0, 1], 0) == 0
  {}

  lemma MarkLost(capacity: nat)
    requires capacity == 2
    ensures Announced([Entry(2, NOT_RESPONDING), Entry(1, NOT_RESPONDING)], capacity, 1, 0x222, 2) == [Entry(1, 0x222)]
  {
    var es := [Entry(2, NOT_RESPONDING), Entry(1, NOT_RESPONDING)];
    assert IndexOfId(es, 1) == 1;
    var t := Touched(es, 1);
    assert t == [Entry(1, NOT_RESPONDING), Entry(2, NOT_RESPONDING)];
    assert IndexOfId(t, 2) == 1;
    var m := Without(t, 1);
    assert m == [Entry(1, NOT_RESPONDING)];
    assert Purged(m, 1, 0x222) == [];
  }
}
