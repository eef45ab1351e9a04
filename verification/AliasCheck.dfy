/** The consistency check of the alias cache (AliasCache::check_consistency in
    src/openlcb/AliasCache.cpp): the invariant of `AliasSlots` makes all of it pass. */
module AliasCheck {
  import opened RecencyList
  import opened AliasSlots

  /** The slots met on the way along the `older` links, at most `steps` of them. */
  function Walk(p: seq<Metadata>, from: nat, steps: nat): seq<nat>
    decreases steps
  {
    if steps == 0 || from >= |p| then [] else [from] + Walk(p, p[from].older, steps - 1)
  }

  /** The conditions of the original, in its terms; the numbers are its error codes. */
  ghost predicate ChecksPass(p: seq<Metadata>, newest: nat, oldest: nat, freeList: nat,
                             aliasMap: map<nat, nat>, idMap: map<nat, nat>)
  {
    var free, lru := Walk(p, freeList, |p| + 1), Walk(p, newest, |p| + 1);
    && |idMap| == |aliasMap|                                                             // 1
    && (|aliasMap| == |p| <==> freeList == NONE_ENTRY)                                   // 2, 3
    && (|aliasMap| == 0 <==> newest == NONE_ENTRY)                                       // 4, 8, 10
    && (|aliasMap| == 0 <==> oldest == NONE_ENTRY)                                       // 4, 7, 9
    && (forall i, j | 0 <= i < j < |free| :: free[i] != free[j])                         // 5
    && |free| + |aliasMap| == |p|                                                        // 6
    && (forall a | a in aliasMap :: aliasMap[a] < |p| && aliasMap[a] !in free)           // 19
    && (forall d | d in idMap :: idMap[d] < |p| && idMap[d] !in free)                    // 20
    && (forall s | s in lru :: s !in free)                                               // 11, 12, 21, 22
    && (lru != [] ==>
          && lru[|lru| - 1] == oldest < |p| && p[oldest].older == NONE_ENTRY                   // 13, 17
          && lru[0] == newest < |p| && p[newest].newer == NONE_ENTRY)                          // 15, 18
    && BackLinked(p, lru)                                                                // 14, 16
    && |lru| == |aliasMap|                                                               // 27
    && (forall s: nat | s < |p| && s !in free ::
          && p[s].nodeId in idMap && idMap[p[s].nodeId] == s                             // 23, 24
          && p[s].alias in aliasMap && aliasMap[p[s].alias] == s)                        // 25, 26
  }

  /** The `newer` link of each slot leads back to the one before it. */
  ghost predicate BackLinked(p: seq<Metadata>, lru: seq<nat>) {
    forall i, j | 0 <= i < j == i + 1 < |lru| :: lru[j] < |p| && p[lru[j]].newer == lru[i]
  }

  /** `s` is chained by `older` links, from its first element to no slot. */
  ghost predicate Chain(p: seq<Metadata>, s: seq<nat>) {
    && (forall i | 0 <= i < |s| :: s[i] < |p|)
    && (forall i, j {:trigger p[s[i]], p[s[j]]} | 0 <= i < j == i + 1 < |s| :: p[s[i]].older == s[j])
    && (|s| > 0 ==> p[s[|s| - 1]].older == NONE_ENTRY)
  }

  lemma {:induction false} WalkIsList(p: seq<Metadata>, s: seq<nat>, steps: nat)
    requires |p| <= 0x1000 && Chain(p, s) && |s| < steps
    ensures Walk(p, At(s, 0), steps) == s
  {
    if s != [] {
      var t := s[1..];
      forall i, j | 0 <= i < j == i + 1 < |t| ensures p[t[i]].older == t[j] {
        var x, y := p[s[i + 1]], p[s[j + 1]];
        assert x.older == s[j + 1];
      }
      assert t != [] ==> t[|t| - 1] == s[|s| - 1];
      WalkIsList(p, t, steps - 1);
      if t != [] {
        var x, y := p[s[0]], p[s[1]];
        assert x.older == s[1] == t[0];
      }
    }
  }

  ghost function Elements(s: seq<nat>): (r: set<nat>)
    ensures forall x: nat :: x in r <==> x in s
  {
    if s == [] then {}
    else
      assert s == s[..|s| - 1] + [s[|s| - 1]];
      Elements(s[..|s| - 1]) + {s[|s| - 1]}
  }

  ghost function NatsBelow(n: nat): (r: set<nat>)
    ensures |r| == n && forall x: nat :: x in r <==> x < n
  {
    if n == 0 then {} else NatsBelow(n - 1) + {n - 1}
  }

  lemma {:induction false} DistinctCount(s: seq<nat>)
    requires forall i, j | 0 <= i < j < |s| :: s[i] != s[j]
    ensures |Elements(s)| == |s|
  {
    if s != [] {
      DistinctCount(s[..|s| - 1]);
      assert s[|s| - 1] !in Elements(s[..|s| - 1]);
    }
  }

  lemma SameSize(a: set<nat>, b: set<nat>)
    requires a <= b && |a| == |b|
    ensures a == b
  {
    assert b == a + (b - a);
    assert |b - a| == 0;
  }

  /** Distinct numbers below `n`, as many as there are, are all of them. */
  lemma Pigeonhole(s: seq<nat>, n: nat)
    requires |s| == n && forall i | 0 <= i < n :: s[i] < n
    requires forall i, j | 0 <= i < j < n :: s[i] != s[j]
    ensures forall x: nat | x < n :: x in s
  {
    DistinctCount(s);
    assert Elements(s) <= NatsBelow(n);
    SameSize(Elements(s), NatsBelow(n));
    assert forall x: nat | x < n :: x in NatsBelow(n);
  }

  function AliasesOf(p: seq<Metadata>, lru: seq<nat>): seq<nat>
    requires forall i | 0 <= i < |lru| :: lru[i] < |p|
  {
    seq(|lru|, i requires 0 <= i < |lru| => p[lru[i]].alias)
  }

  function IdsOf(p: seq<Metadata>, lru: seq<nat>): seq<nat>
    requires forall i | 0 <= i < |lru| :: lru[i] < |p|
  {
    seq(|lru|, i requires 0 <= i < |lru| => p[lru[i]].nodeId)
  }

  /** A map with the elements of a distinct list as keys is as large as the list. */
  lemma KeyCount(m: map<nat, nat>, keys: seq<nat>)
    requires forall i, j | 0 <= i < j < |keys| :: keys[i] != keys[j]
    requires (forall k | k in keys :: k in m) && forall k | k in m :: k in keys
    ensures |m| == |keys|
  {
    DistinctCount(keys);
    assert m.Keys == Elements(keys);
    assert |m.Keys| == |m|;
  }

  lemma IndexSizes(p: seq<Metadata>, lru: seq<nat>, aliasMap: map<nat, nat>, idMap: map<nat, nat>)
    requires Indexed(p, lru, aliasMap, idMap) && forall i, j | 0 <= i < j < |lru| :: lru[i] != lru[j]
    ensures |aliasMap| == |lru| && |idMap| == |lru|
  {
    var aliases, ids := AliasesOf(p, lru), IdsOf(p, lru);
    forall i, j | 0 <= i < j < |lru| ensures aliases[i] != aliases[j] && ids[i] != ids[j] {
      var x, y := p[lru[i]], p[lru[j]];
    }
    forall i | 0 <= i < |lru| ensures aliases[i] in aliasMap && ids[i] in idMap {
      var x := p[lru[i]];
    }
    forall a | a in aliasMap ensures a in aliases {
      assert AliasHit(p, lru, aliasMap, a);
      var i :| 0 <= i < |lru| && lru[i] == aliasMap[a];
      assert aliases[i] == a;
    }
    forall d | d in idMap ensures d in ids {
      assert IdHit(p, lru, idMap, d);
      var i :| 0 <= i < |lru| && lru[i] == idMap[d];
      assert ids[i] == d;
    }
    hide Indexed;
    KeyCount(aliasMap, aliases);
    KeyCount(idMap, ids);
  }

  /** Every slot that is not free is used. */
  lemma UsedOrFree(lru: seq<nat>, free: seq<nat>, n: nat, s: nat)
    requires Slots(lru, free, n) && s < n && s !in free
    ensures s in lru
  {
    Pigeonhole(lru + free, n);
    assert s in lru + free;
  }

  /** The invariant makes the check come out with no error. */
  lemma CheckConsistency(p: seq<Metadata>, lru: seq<nat>, free: seq<nat>, newest: nat, oldest: nat, freeList: nat,
                         aliasMap: map<nat, nat>, idMap: map<nat, nat>)
    requires 0 < |p| <= 0x1000
    requires Consistent(p, lru, free, newest, oldest, freeList) && Indexed(p, lru, aliasMap, idMap)
    ensures ChecksPass(p, newest, oldest, freeList, aliasMap, idMap)
  {
    hide Walk, Chain, BackLinked, Indexed, FreeLinked;
    Chains(p, lru, free);
    WalkIsList(p, lru, |p| + 1);
    WalkIsList(p, free, |p| + 1);
    IndexSizes(p, lru, aliasMap, idMap);
    IndexTargets(p, lru, free, aliasMap, idMap);
  }

  lemma Chains(p: seq<Metadata>, lru: seq<nat>, free: seq<nat>)
    requires Linked(p, lru) && FreeLinked(p, free)
    ensures Chain(p, lru) && Chain(p, free) && BackLinked(p, lru)
  {
    forall i, j | 0 <= i < j == i + 1 < |lru| ensures p[lru[i]].older == lru[j] && p[lru[j]].newer == lru[i] {
      var x, y := p[lru[i]], p[lru[j]];
    }
    forall i, j | 0 <= i < j == i + 1 < |free| ensures p[free[i]].older == free[j] {
      var x, y := p[free[i]], p[free[j]];
    }
  }

  lemma IndexTargets(p: seq<Metadata>, lru: seq<nat>, free: seq<nat>, aliasMap: map<nat, nat>, idMap: map<nat, nat>)
    requires Slots(lru, free, |p|) && Indexed(p, lru, aliasMap, idMap)
    ensures forall a | a in aliasMap :: aliasMap[a] < |p| && aliasMap[a] !in free
    ensures forall d | d in idMap :: idMap[d] < |p| && idMap[d] !in free
    ensures forall s: nat | s < |p| && s !in free ::
      p[s].nodeId in idMap && idMap[p[s].nodeId] == s && p[s].alias in aliasMap && aliasMap[p[s].alias] == s
  {
    forall a | a in aliasMap ensures aliasMap[a] < |p| && aliasMap[a] !in free {
      assert AliasHit(p, lru, aliasMap, a);
    }
    forall d | d in idMap ensures idMap[d] < |p| && idMap[d] !in free {
      assert IdHit(p, lru, idMap, d);
    }
    forall s: nat | s < |p| && s !in free
      ensures p[s].nodeId in idMap && idMap[p[s].nodeId] == s && p[s].alias in aliasMap && aliasMap[p[s].alias] == s
    {
      UsedOrFree(lru, free, |p|, s);
      var i :| 0 <= i < |lru| && lru[i] == s;
      var x := p[lru[i]];
    }
  }
}
