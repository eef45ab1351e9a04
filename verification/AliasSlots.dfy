/** The slots of the alias cache (src/openlcb/AliasCache.cpp and AliasCache.hxx) as
    values: a free list and a doubly linked list in order of last use are threaded
    through them, and two indexes point back at the used ones. The lemmas say what
    each in-place edit does to that invariant. */
module AliasSlots {
  import opened Bits
  import opened RecencyList

  /** Index value that stands for "no slot". */
  const NONE_ENTRY: nat := 0xFFFF

  /** One slot. `alias` is a 12-bit alias, or NOT_RESPONDING joined with the slot index. */
  datatype Metadata = Metadata(nodeId: nat, alias: nat, newer: nat, older: nat)

  /** Hides the slot index in a NOT_RESPONDING alias; a 16-bit alias has all the
      bits of NOT_RESPONDING exactly when it is no smaller (ResolveIsBitTest). */
  function Resolve(stored: nat): nat {
    if stored < NOT_RESPONDING then stored else NOT_RESPONDING
  }

  lemma ResolveIsBitTest(stored: nat)
    requires stored < 0x10000
    ensures And(stored, NOT_RESPONDING) == NOT_RESPONDING <==> stored >= NOT_RESPONDING
  {
    WordSizes();
    assert HighMask(12, 16) == NOT_RESPONDING;
    AndHighMask(stored, 12, 16);
    assert RoundDown(stored, 12) == stored / 0x1000 * 0x1000;
  }

  /** The sentinel stored in a slot; those of different slots differ. */
  lemma SentinelIsSum(slot: nat)
    requires slot < 0x1000
    ensures Or(NOT_RESPONDING, slot) == NOT_RESPONDING + slot
  {
    WordSizes();
    assert NOT_RESPONDING == 15 * Pow2(12);
    OrDisjoint(NOT_RESPONDING, slot, 12);
  }

  predicate StoredOk(m: Metadata, slot: nat) {
    IdOk(m.nodeId) && (PlainAlias(m.alias) || m.alias == NOT_RESPONDING + slot)
  }

  // The two lists of slots: `lru` holds the used slots, newest first, `free` the others.

  ghost predicate Slots(lru: seq<nat>, free: seq<nat>, n: nat) {
    && |lru| + |free| == n
    && (forall i | 0 <= i < |lru| :: lru[i] < n)
    && (forall i | 0 <= i < |free| :: free[i] < n)
    && (forall i, j | 0 <= i < j < |lru| :: lru[i] != lru[j])
    && (forall i, j | 0 <= i < j < |free| :: free[i] != free[j])
    && (forall i, j | 0 <= i < |lru| && 0 <= j < |free| :: lru[i] != free[j])
  }

  /** Where slot `x` stands in a list. */
  function Pos(s: seq<nat>, x: nat): (i: nat)
    ensures i <= |s| && (i < |s| ==> s[i] == x) && (i < |s| <==> x in s)
  {
    if s == [] || s[0] == x then 0 else 1 + Pos(s[1..], x)
  }

  function At(s: seq<nat>, i: int): nat {
    if 0 <= i < |s| then s[i] else NONE_ENTRY
  }

  ghost predicate Linked(p: seq<Metadata>, lru: seq<nat>) {
    && (forall i | 0 <= i < |lru| :: lru[i] < |p|)
    && (forall i, j {:trigger p[lru[i]], p[lru[j]]} | 0 <= i < j == i + 1 < |lru| ::
          p[lru[i]].older == lru[j] && p[lru[j]].newer == lru[i])
    && (|lru| > 0 ==> p[lru[0]].newer == NONE_ENTRY && p[lru[|lru| - 1]].older == NONE_ENTRY)
  }

  ghost predicate FreeLinked(p: seq<Metadata>, free: seq<nat>) {
    && (forall i | 0 <= i < |free| :: free[i] < |p|)
    && (forall i, j {:trigger p[free[i]], p[free[j]]} | 0 <= i < j == i + 1 < |free| :: p[free[i]].older == free[j])
    && (|free| > 0 ==> p[free[|free| - 1]].older == NONE_ENTRY)
  }

  /** The lists threaded through the slots are `lru` and `free`, and between them they hold every slot. */
  ghost predicate Consistent(p: seq<Metadata>, lru: seq<nat>, free: seq<nat>, newest: nat, oldest: nat, freeList: nat) {
    && Slots(lru, free, |p|)
    && Linked(p, lru) && newest == At(lru, 0) && oldest == At(lru, |lru| - 1)
    && FreeLinked(p, free) && freeList == At(free, 0)
  }

  /** Both indexes point at the slot that holds their key. */
  ghost predicate AliasHit(p: seq<Metadata>, lru: seq<nat>, aliasMap: map<nat, nat>, a: nat) {
    a in aliasMap ==> aliasMap[a] in lru && aliasMap[a] < |p| && p[aliasMap[a]].alias == a
  }

  ghost predicate IdHit(p: seq<Metadata>, lru: seq<nat>, idMap: map<nat, nat>, d: nat) {
    d in idMap ==> idMap[d] in lru && idMap[d] < |p| && p[idMap[d]].nodeId == d
  }

  ghost predicate Indexed(p: seq<Metadata>, lru: seq<nat>, aliasMap: map<nat, nat>, idMap: map<nat, nat>) {
    && (forall i | 0 <= i < |lru| :: lru[i] < |p|)
    && (forall i {:trigger p[lru[i]]} | 0 <= i < |lru| ::
          && StoredOk(p[lru[i]], lru[i])
          && p[lru[i]].alias in aliasMap && aliasMap[p[lru[i]].alias] == lru[i]
          && p[lru[i]].nodeId in idMap && idMap[p[lru[i]].nodeId] == lru[i])
    && (forall a {:trigger AliasHit(p, lru, aliasMap, a)} :: AliasHit(p, lru, aliasMap, a))
    && (forall d {:trigger IdHit(p, lru, idMap, d)} :: IdHit(p, lru, idMap, d))
  }

  lemma ResolveAllConcat(a: seq<Entry>, b: seq<Entry>)
    ensures ResolveAll(a + b) == ResolveAll(a) + ResolveAll(b)
    ensures ResolveAll([]) == []
  {}

  function EntryAt(p: seq<Metadata>, slot: nat): Entry
    requires slot < |p|
  {
    Entry(p[slot].nodeId, Resolve(p[slot].alias))
  }

  /** Reported pairs with their aliases as callers see them. */
  function ResolveAll(raw: seq<Entry>): (es: seq<Entry>)
    ensures |es| == |raw| && forall i | 0 <= i < |raw| :: es[i] == Entry(raw[i].id, Resolve(raw[i].alias))
  {
    seq(|raw|, i requires 0 <= i < |raw| => Entry(raw[i].id, Resolve(raw[i].alias)))
  }

  function EntriesOf(p: seq<Metadata>, lru: seq<nat>): (es: seq<Entry>)
    requires forall i | 0 <= i < |lru| :: lru[i] < |p|
    ensures |es| == |lru|
    ensures forall i {:trigger es[i]} | 0 <= i < |lru| :: es[i] == EntryAt(p, lru[i])
  {
    seq(|lru|, i requires 0 <= i < |lru| => EntryAt(p, lru[i]))
  }

  lemma EntriesDistinct(p: seq<Metadata>, lru: seq<nat>, aliasMap: map<nat, nat>, idMap: map<nat, nat>)
    requires |p| <= 0x1000 && Indexed(p, lru, aliasMap, idMap)
    requires forall i, j | 0 <= i < j < |lru| :: lru[i] != lru[j]
    ensures Distinct(EntriesOf(p, lru))
  {
    var es := EntriesOf(p, lru);
    forall i | 0 <= i < |lru| ensures IdOk(es[i].id) && AliasOk(es[i].alias) {
      assert StoredOk(p[lru[i]], lru[i]);
    }
    forall i, j | 0 <= i < j < |lru|
      ensures es[i].id != es[j].id && (es[i].alias == es[j].alias ==> es[i].alias == NOT_RESPONDING)
    {
      assert p[lru[i]].alias != p[lru[j]].alias && p[lru[i]].nodeId != p[lru[j]].nodeId;
    }
  }

  /** `n - 1, ..., 1, 0`: the free list of an empty cache. */
  function Countdown(n: nat): (s: seq<nat>)
    ensures |s| == n && forall k | 0 <= k < n :: s[k] == n - 1 - k
  {
    seq(n, k requires 0 <= k < n => n - 1 - k)
  }

  // ---------------------------------------------------------------------
  // Value-level steps: what an edit of the slots does to the invariant.

  /** `q` is `p` with slot `m` taken out of the doubly linked list and made the head `f` of the free list. */
  ghost predicate Released(p: seq<Metadata>, q: seq<Metadata>, m: nat, f: nat) {
    && m < |p| == |q|
    && q[m] == p[m].(nodeId := 0, older := f)
    && forall i | 0 <= i < |p| && i != m ::
         q[i] == p[i].(older := if i == p[m].newer then p[m].older else p[i].older,
                       newer := if i == p[m].older then p[m].newer else p[i].newer)
  }

  /** `l` is `s` without element `j`. */
  ghost predicate Dropped<T>(s: seq<T>, l: seq<T>, j: nat) {
    && j < |s| == |l| + 1
    && forall k | 0 <= k < |l| :: l[k] == s[if k < j then k else k + 1]
  }

  lemma WithoutDropped<T>(s: seq<T>, j: nat)
    requires j < |s|
    ensures Dropped(s, Without(s, j), j)
  {}

  lemma DroppedWithout<T>(s: seq<T>, l: seq<T>, j: nat)
    requires Dropped(s, l, j)
    ensures l == Without(s, j)
  {}

  lemma LinkShape(p: seq<Metadata>, lru: seq<nat>, free: seq<nat>, j: nat)
    requires |p| <= 0x1000 && Slots(lru, free, |p|) && Linked(p, lru) && j < |lru|
    ensures p[lru[j]].newer == At(lru, j - 1) && p[lru[j]].older == At(lru, j + 1)
    ensures forall i | 0 <= i < |lru| :: (At(lru, j - 1) == lru[i] <==> i == j - 1) && (At(lru, j + 1) == lru[i] <==> i == j + 1)
    ensures forall i | 0 <= i < |free| :: At(lru, j - 1) != free[i] && At(lru, j + 1) != free[i]
  {
    var m := p[lru[j]];
    if j > 0 {
      assert p[lru[j - 1]].older == lru[j] && m.newer == lru[j - 1];
    }
    if j + 1 < |lru| {
      assert p[lru[j + 1]].newer == lru[j] && m.older == lru[j + 1];
    }
  }

  lemma ReleaseSlots(lru: seq<nat>, free: seq<nat>, n: nat, j: nat, l: seq<nat>)
    requires Slots(lru, free, n) && Dropped(lru, l, j)
    ensures Slots(l, [lru[j]] + free, n)
  {
    var f := [lru[j]] + free;
    assert forall k | 0 < k < |f| :: f[k] == free[k - 1];
  }

  lemma ReleaseLinks(p: seq<Metadata>, q: seq<Metadata>, lru: seq<nat>, free: seq<nat>, j: nat, f: nat, l: seq<nat>)
    requires |p| <= 0x1000 && Slots(lru, free, |p|) && Linked(p, lru) && Dropped(lru, l, j)
    requires Released(p, q, lru[j], f)
    ensures Linked(q, l)
  {
    forall k | 0 <= k < |l|
      ensures l[k] < |q| && q[l[k]].newer == At(l, k - 1) && q[l[k]].older == At(l, k + 1)
    {
      var k' := if k < j then k else k + 1;
      LinkShape(p, lru, free, j);
      LinkShape(p, lru, free, k');
      assert l[k] == lru[k'] != lru[j];
    }
  }

  lemma ReleaseFree(p: seq<Metadata>, q: seq<Metadata>, lru: seq<nat>, free: seq<nat>, j: nat)
    requires |p| <= 0x1000 && Slots(lru, free, |p|) && j < |lru| && Linked(p, lru) && FreeLinked(p, free)
    requires Released(p, q, lru[j], At(free, 0))
    ensures FreeLinked(q, [lru[j]] + free)
  {
    LinkShape(p, lru, free, j);
    var f := [lru[j]] + free;
    assert forall k | 0 < k < |f| :: f[k] == free[k - 1];
    forall k | 0 < k < |f| ensures f[k] < |p| && q[f[k]].older == p[f[k]].older {
      assert f[k] == free[k - 1];
    }
    forall i, k | 0 <= i < k == i + 1 < |f| ensures q[f[i]].older == f[k] {
      if i > 0 {
        var x, y := p[free[i - 1]], p[free[k - 1]];
        assert f[i] == free[i - 1] && f[k] == free[k - 1] && x.older == free[k - 1];
      }
    }
    if |free| > 0 {
      assert f[|f| - 1] == free[|free| - 1];
    }
  }

  lemma ReleaseIndex(p: seq<Metadata>, q: seq<Metadata>, lru: seq<nat>, free: seq<nat>, j: nat, f: nat,
                     l: seq<nat>, aliasMap: map<nat, nat>, idMap: map<nat, nat>)
    requires Slots(lru, free, |p|) && Dropped(lru, l, j) && Indexed(p, lru, aliasMap, idMap)
    requires Released(p, q, lru[j], f)
    ensures Indexed(q, l, aliasMap - {p[lru[j]].alias}, idMap - {p[lru[j]].nodeId})
  {
    var m := lru[j];
    var am, im := aliasMap - {p[m].alias}, idMap - {p[m].nodeId};
    assert p[lru[j]] == p[m];
    forall k | 0 <= k < |l|
      ensures l[k] < |q| && StoredOk(q[l[k]], l[k])
      ensures q[l[k]].alias in am && am[q[l[k]].alias] == l[k]
      ensures q[l[k]].nodeId in im && im[q[l[k]].nodeId] == l[k]
    {
      var k' := if k < j then k else k + 1;
      assert l[k] == lru[k'] != m && p[lru[k']].alias == q[l[k]].alias;
    }
    forall a ensures AliasHit(q, l, am, a) {
      assert AliasHit(p, lru, aliasMap, a);
      if a in am { StillThere(lru, l, j, am[a]); }
    }
    forall d ensures IdHit(q, l, im, d) {
      assert IdHit(p, lru, idMap, d);
      if d in im { StillThere(lru, l, j, im[d]); }
    }
  }

  lemma StillThere(lru: seq<nat>, l: seq<nat>, j: nat, s: nat)
    requires Dropped(lru, l, j) && s in lru && s != lru[j]
    ensures s in l
  {
    var k :| 0 <= k < |lru| && lru[k] == s;
    assert l[if k < j then k else k - 1] == s;
  }

  lemma ReleaseEntries(p: seq<Metadata>, q: seq<Metadata>, lru: seq<nat>, free: seq<nat>, j: nat, f: nat, l: seq<nat>)
    requires Slots(lru, free, |p|) && Dropped(lru, l, j) && Released(p, q, lru[j], f)
    ensures forall k | 0 <= k < |l| :: l[k] < |q|
    ensures EntriesOf(q, l) == Without(EntriesOf(p, lru), j)
  {
    assert forall k | 0 <= k < |l| :: l[k] == lru[if k < j then k else k + 1] != lru[j];
    DroppedWithout(EntriesOf(p, lru), EntriesOf(q, l), j);
  }

  lemma ReleaseConsistent(p: seq<Metadata>, q: seq<Metadata>, lru: seq<nat>, free: seq<nat>, j: nat,
                          newest: nat, oldest: nat, freeList: nat)
    requires |p| <= 0x1000 && Consistent(p, lru, free, newest, oldest, freeList)
    requires j < |lru| && Released(p, q, lru[j], freeList)
    ensures var m := lru[j];
      Consistent(q, Without(lru, j), [m] + free, if m == newest then p[m].older else newest,
                 if m == oldest then p[m].newer else oldest, m)
  {
    var l := Without(lru, j);
    WithoutDropped(lru, j);
    ReleaseSlots(lru, free, |p|, j, l);
    ReleaseLinks(p, q, lru, free, j, freeList, l);
    ReleaseFree(p, q, lru, free, j);
    LinkShape(p, lru, free, j);
  }

  lemma ReleaseStep(p: seq<Metadata>, q: seq<Metadata>, lru: seq<nat>, free: seq<nat>, j: nat,
                    newest: nat, oldest: nat, freeList: nat, aliasMap: map<nat, nat>, idMap: map<nat, nat>)
    requires |p| <= 0x1000 && Consistent(p, lru, free, newest, oldest, freeList) && Indexed(p, lru, aliasMap, idMap)
    requires j < |lru| && Released(p, q, lru[j], freeList)
    ensures var m := lru[j];
      var newest' := if m == newest then p[m].older else newest;
      var oldest' := if m == oldest then p[m].newer else oldest;
      Consistent(q, Without(lru, j), [m] + free, newest', oldest', m)
    ensures Indexed(q, Without(lru, j), aliasMap - {p[lru[j]].alias}, idMap - {p[lru[j]].nodeId})
    ensures EntriesOf(q, Without(lru, j)) == Without(EntriesOf(p, lru), j)
    ensures q[lru[j]].alias == p[lru[j]].alias
  {
    ReleaseConsistent(p, q, lru, free, j, newest, oldest, freeList);
    WithoutDropped(lru, j);
    ReleaseIndex(p, q, lru, free, j, freeList, Without(lru, j), aliasMap, idMap);
    ReleaseEntries(p, q, lru, free, j, freeList, Without(lru, j));
  }

  /** What the indexes say about the entries. */
  lemma IndexMeaning(p: seq<Metadata>, lru: seq<nat>, free: seq<nat>, aliasMap: map<nat, nat>, idMap: map<nat, nat>, key: nat)
    requires |p| <= 0x1000 && Slots(lru, free, |p|) && Indexed(p, lru, aliasMap, idMap)
    ensures var es := EntriesOf(p, lru);
      && (PlainAlias(key) ==> (key in aliasMap <==> IndexOfAlias(es, key) < |es|))
      && (PlainAlias(key) && key in aliasMap ==>
            aliasMap[key] in lru && aliasMap[key] < |p| && Pos(lru, aliasMap[key]) == IndexOfAlias(es, key))
      && (key in idMap <==> IndexOfId(es, key) < |es|)
      && (key in idMap ==>
            idMap[key] in lru && idMap[key] < |p| && p[idMap[key]].nodeId == key && Pos(lru, idMap[key]) == IndexOfId(es, key))
  {
    var es := EntriesOf(p, lru);
    assert AliasHit(p, lru, aliasMap, key) && IdHit(p, lru, idMap, key);
    hide Pos;
    if PlainAlias(key) {
      var i := IndexOfAlias(es, key);
      if i < |es| {
        assert es[i] == EntryAt(p, lru[i]) && StoredOk(p[lru[i]], lru[i]);
        assert key in aliasMap && aliasMap[key] == lru[i];
      }
      if key in aliasMap {
        assert es[Pos(lru, aliasMap[key])] == EntryAt(p, aliasMap[key]);
      }
    }
    var i := IndexOfId(es, key);
    if i < |es| {
      assert es[i] == EntryAt(p, lru[i]) && p[lru[i]].nodeId == key;
    }
    if key in idMap {
      assert es[Pos(lru, idMap[key])] == EntryAt(p, idMap[key]);
    }
  }

  /** `q` is `p` with slot `m` moved from inside the doubly linked list to its front. */
  ghost predicate MovedToFront(p: seq<Metadata>, q: seq<Metadata>, m: nat, newest: nat) {
    && m < |p| == |q|
    && q[m] == p[m].(newer := NONE_ENTRY, older := newest)
    && forall i | 0 <= i < |p| && i != m ::
         q[i] == p[i].(older := if i == p[m].newer then p[m].older else p[i].older,
                       newer := if i == newest then m else if i == p[m].older then p[m].newer else p[i].newer)
  }

  /** What the pointer edits of a touch rely on. */
  lemma TouchReady(p: seq<Metadata>, lru: seq<nat>, free: seq<nat>, m: nat, newest: nat, oldest: nat, freeList: nat)
    requires |p| <= 0x1000 && Consistent(p, lru, free, newest, oldest, freeList) && m in lru
    ensures var j := Pos(lru, m);
      && j < |lru| && lru[j] == m < |p| && (j == 0 <==> m == newest)
      && (j > 0 ==>
            var n, o := p[m].newer, p[m].older;
            && n < |p| && (o == NONE_ENTRY || o < |p|) && (o == NONE_ENTRY <==> m == oldest)
            && n != m && o != m && n != o && newest < |p| && newest != o)
  {
    var j := Pos(lru, m);
    LinkShape(p, lru, free, j);
    hide FreeLinked, Linked, Pos;
    assert lru[0] == newest && lru[|lru| - 1] == oldest;
  }

  lemma TouchKeepsKeys(p: seq<Metadata>, q: seq<Metadata>, m: nat, newest: nat)
    requires MovedToFront(p, q, m, newest)
    ensures |q| == |p| && m < |p| && q[m].alias == p[m].alias && q[m].nodeId == p[m].nodeId
  {}

  lemma TouchStep(p: seq<Metadata>, q: seq<Metadata>, lru: seq<nat>, free: seq<nat>, j: nat,
                  newest: nat, oldest: nat, freeList: nat, aliasMap: map<nat, nat>, idMap: map<nat, nat>)
    requires |p| <= 0x1000 && Consistent(p, lru, free, newest, oldest, freeList) && Indexed(p, lru, aliasMap, idMap)
    requires 0 < j < |lru| && MovedToFront(p, q, lru[j], newest)
    ensures var oldest' := if lru[j] == oldest then p[lru[j]].newer else oldest;
      Consistent(q, Touched(lru, j), free, lru[j], oldest', freeList)
    ensures Indexed(q, Touched(lru, j), aliasMap, idMap)
    ensures EntriesOf(q, Touched(lru, j)) == Touched(EntriesOf(p, lru), j)
  {
    var l := Touched(lru, j);
    TouchedAt(lru, j);
    hide Touched, Consistent, Indexed, MovedToFront, EntriesOf;
    TouchLinks(p, q, lru, free, j, newest, oldest, freeList, l);
    TouchIndex(p, q, lru, free, j, newest, aliasMap, idMap, l);
    TouchEntries(p, q, lru, j, newest, l);
  }

  /** `l` is `s` with element `j` moved to the front. */
  ghost predicate Fronted<T>(s: seq<T>, l: seq<T>, j: nat) {
    && j < |s| == |l|
    && forall k | 0 <= k < |s| :: l[k] == s[if k == 0 then j else if k <= j then k - 1 else k]
  }

  lemma TouchLinks(p: seq<Metadata>, q: seq<Metadata>, lru: seq<nat>, free: seq<nat>, j: nat,
                   newest: nat, oldest: nat, freeList: nat, l: seq<nat>)
    requires |p| <= 0x1000 && Consistent(p, lru, free, newest, oldest, freeList)
    requires 0 < j && Fronted(lru, l, j) && MovedToFront(p, q, lru[j], newest)
    ensures var oldest' := if lru[j] == oldest then p[lru[j]].newer else oldest;
      Consistent(q, l, free, lru[j], oldest', freeList)
  {
    LinkShape(p, lru, free, j);
    FrontedSlots(lru, l, free, |p|, j);
    TouchLinkAt(p, q, lru, free, j, newest, oldest, freeList, l, 0);
    TouchLinkAt(p, q, lru, free, j, newest, oldest, freeList, l, |l| - 1);
    forall i, k | 0 <= i < k == i + 1 < |l| ensures q[l[i]].older == l[k] && q[l[k]].newer == l[i] {
      TouchLinkAt(p, q, lru, free, j, newest, oldest, freeList, l, i);
      TouchLinkAt(p, q, lru, free, j, newest, oldest, freeList, l, k);
    }
    TouchFree(p, q, lru, free, j, newest);
    hide Linked, FreeLinked, MovedToFront;
  }

  lemma FrontedSlots(lru: seq<nat>, l: seq<nat>, free: seq<nat>, n: nat, j: nat)
    requires Slots(lru, free, n) && Fronted(lru, l, j)
    ensures Slots(l, free, n)
  {
    forall a, b | 0 <= a < b < |l| ensures l[a] != l[b] {
      var a' := if a == 0 then j else if a <= j then a - 1 else a;
      var b' := if b <= j then b - 1 else b;
      assert l[a] == lru[a'] && l[b] == lru[b'];
    }
  }

  lemma TouchLinkAt(p: seq<Metadata>, q: seq<Metadata>, lru: seq<nat>, free: seq<nat>, j: nat,
                    newest: nat, oldest: nat, freeList: nat, l: seq<nat>, k: nat)
    requires |p| <= 0x1000 && Consistent(p, lru, free, newest, oldest, freeList) && k < |lru|
    requires 0 < j && Fronted(lru, l, j) && MovedToFront(p, q, lru[j], newest)
    ensures l[k] < |q| && q[l[k]].newer == At(l, k - 1) && q[l[k]].older == At(l, k + 1)
  {
    var k' := if k == 0 then j else if k <= j then k - 1 else k;
    LinkShape(p, lru, free, j);
    LinkShape(p, lru, free, k');
    assert l[k] == lru[k'] && l[0] == lru[j];
    assert lru[0] == newest;
    hide Slots, Linked, FreeLinked;
  }

  lemma TouchFree(p: seq<Metadata>, q: seq<Metadata>, lru: seq<nat>, free: seq<nat>, j: nat, newest: nat)
    requires |p| <= 0x1000 && Slots(lru, free, |p|) && Linked(p, lru) && newest == At(lru, 0) && FreeLinked(p, free)
    requires 0 < j < |lru| && MovedToFront(p, q, lru[j], newest)
    ensures FreeLinked(q, free)
  {
    LinkShape(p, lru, free, j);
    assert forall i | 0 <= i < |free| :: free[i] != lru[j] && free[i] != lru[0];
    forall i | 0 <= i < |free| ensures free[i] < |q| && q[free[i]] == p[free[i]] {}
  }

  lemma TouchIndex(p: seq<Metadata>, q: seq<Metadata>, lru: seq<nat>, free: seq<nat>, j: nat, newest: nat,
                   aliasMap: map<nat, nat>, idMap: map<nat, nat>, l: seq<nat>)
    requires Slots(lru, free, |p|) && Indexed(p, lru, aliasMap, idMap)
    requires Fronted(lru, l, j) && MovedToFront(p, q, lru[j], newest)
    ensures Indexed(q, l, aliasMap, idMap)
  {
    forall s | s in lru ensures s in l {
      var k := Pos(lru, s);
      assert l[if k == j then 0 else if k < j then k + 1 else k] == s;
    }
    forall k | 0 <= k < |l| ensures l[k] < |q| && l[k] in lru && q[l[k]].alias == p[l[k]].alias && q[l[k]].nodeId == p[l[k]].nodeId {
      assert l[k] == lru[if k == 0 then j else if k <= j then k - 1 else k];
    }
    forall a ensures AliasHit(q, l, aliasMap, a) {
      assert AliasHit(p, lru, aliasMap, a);
    }
    forall d ensures IdHit(q, l, idMap, d) {
      assert IdHit(p, lru, idMap, d);
    }
  }

  lemma TouchEntries(p: seq<Metadata>, q: seq<Metadata>, lru: seq<nat>, j: nat, newest: nat, l: seq<nat>)
    requires forall k | 0 <= k < |lru| :: lru[k] < |p|
    requires Fronted(lru, l, j) && MovedToFront(p, q, lru[j], newest)
    ensures forall k | 0 <= k < |l| :: l[k] < |q|
    ensures EntriesOf(q, l) == Touched(EntriesOf(p, lru), j)
  {
    TouchedAt(EntriesOf(p, lru), j);
  }

  /** As Consistent, but slot `m` is on neither list. */
  ghost predicate Loose(p: seq<Metadata>, lru: seq<nat>, free: seq<nat>, newest: nat, oldest: nat, freeList: nat, m: nat) {
    && Slots(lru, [m] + free, |p|)
    && Linked(p, lru) && newest == At(lru, 0) && oldest == At(lru, |lru| - 1)
    && FreeLinked(p, free) && freeList == At(free, 0)
  }

  lemma PopStep(p: seq<Metadata>, lru: seq<nat>, free: seq<nat>, newest: nat, oldest: nat, freeList: nat)
    requires |p| <= 0x1000 && Consistent(p, lru, free, newest, oldest, freeList) && free != []
    ensures freeList < |p| && Loose(p, lru, free[1..], newest, oldest, p[freeList].older, freeList)
  {
    var f := free[1..];
    assert free == [freeList] + f;
    PopFreeLinks(p, free, f);
    hide Slots, Linked, FreeLinked;
  }

  lemma PopFreeLinks(p: seq<Metadata>, free: seq<nat>, f: seq<nat>)
    requires FreeLinked(p, free) && free != [] && f == free[1..]
    ensures FreeLinked(p, f) && p[free[0]].older == At(f, 0)
  {
    assert forall i | 0 <= i < |f| :: f[i] == free[i + 1];
    var head := p[free[0]];
    if |free| > 1 {
      var next := p[free[1]];
      assert head.older == f[0];
    }
    forall i, k | 0 <= i < k == i + 1 < |f| ensures p[f[i]].older == f[k] {
      var x, y := p[free[i + 1]], p[free[k + 1]];
      assert f[i] == free[i + 1] && f[k] == free[k + 1] && x.older == free[k + 1];
    }
    if |f| > 0 {
      assert p[f[|f| - 1]] == p[free[|free| - 1]];
    }
  }

  /** `p` with the older link of slot `s`, if that is one, cleared. */
  function CutOlder(p: seq<Metadata>, s: nat): seq<Metadata> {
    if s < |p| then p[s := p[s].(older := NONE_ENTRY)] else p
  }

  /** Dropping the oldest entry of a full cache. */
  lemma EvictStep(p: seq<Metadata>, lru: seq<nat>, newest: nat, oldest: nat,
                  aliasMap: map<nat, nat>, idMap: map<nat, nat>)
    requires 0 < |p| <= 0x1000 && Consistent(p, lru, [], newest, oldest, NONE_ENTRY) && Indexed(p, lru, aliasMap, idMap)
    ensures |lru| == |p| && oldest == lru[|lru| - 1] < |p| && p[oldest].newer == At(lru, |lru| - 2)
    ensures p[oldest].alias in aliasMap && p[oldest].nodeId in idMap
    ensures oldest == newest <==> |lru| == 1
    ensures var q, l := CutOlder(p, p[oldest].newer), lru[..|lru| - 1];
      && Loose(q, l, [], if oldest == newest then NONE_ENTRY else newest, p[oldest].newer, NONE_ENTRY, oldest)
      && Indexed(q, l, aliasMap - {p[oldest].alias}, idMap - {p[oldest].nodeId})
      && EntriesOf(q, l) == EntriesOf(p, lru)[..|lru| - 1]
  {
    var n := |lru| - 1;
    var q, l := CutOlder(p, p[oldest].newer), lru[..n];
    LinkShape(p, lru, [], n);
    assert forall k | 0 <= k < n :: l[k] == lru[k];
    EvictLinks(p, q, lru, l);
    EvictIndex(p, q, lru, l, aliasMap, idMap);
    assert Slots(l, [oldest] + [], |p|);
    hide Slots, Linked, Indexed;
  }

  lemma EvictLinks(p: seq<Metadata>, q: seq<Metadata>, lru: seq<nat>, l: seq<nat>)
    requires 0 < |p| <= 0x1000 && Slots(lru, [], |p|) && Linked(p, lru) && Dropped(lru, l, |lru| - 1)
    requires q == CutOlder(p, p[lru[|lru| - 1]].newer)
    ensures Linked(q, l)
  {
    LinkShape(p, lru, [], |lru| - 1);
    forall i, k | 0 <= i < k == i + 1 < |l| ensures q[l[i]].older == l[k] && q[l[k]].newer == l[i] {
      var x, y := p[lru[i]], p[lru[k]];
      assert l[i] == lru[i] && l[k] == lru[k] && x.older == lru[k] && y.newer == lru[i];
    }
    if |l| > 0 {
      assert l[0] == lru[0] && l[|l| - 1] == lru[|lru| - 2] && p[lru[0]].newer == NONE_ENTRY;
    }
  }

  lemma EvictIndex(p: seq<Metadata>, q: seq<Metadata>, lru: seq<nat>, l: seq<nat>, aliasMap: map<nat, nat>, idMap: map<nat, nat>)
    requires 0 < |p| <= 0x1000 && Slots(lru, [], |p|) && Indexed(p, lru, aliasMap, idMap) && Dropped(lru, l, |lru| - 1)
    requires q == CutOlder(p, p[lru[|lru| - 1]].newer)
    ensures var m := lru[|lru| - 1];
      && p[m].alias in aliasMap && p[m].nodeId in idMap
      && Indexed(q, l, aliasMap - {p[m].alias}, idMap - {p[m].nodeId})
      && EntriesOf(q, l) == EntriesOf(p, lru)[..|lru| - 1]
  {
    var n := |lru| - 1;
    var m := lru[n];
    var am, im := aliasMap - {p[m].alias}, idMap - {p[m].nodeId};
    forall k | 0 <= k < n
      ensures q[l[k]].alias == p[l[k]].alias != p[m].alias && q[l[k]].nodeId == p[l[k]].nodeId != p[m].nodeId
    {
      assert l[k] == lru[k] && p[lru[k]] == p[l[k]] && p[lru[n]] == p[m];
    }
    forall a ensures AliasHit(q, l, am, a) {
      assert AliasHit(p, lru, aliasMap, a);
      if a in am { StillThere(lru, l, n, am[a]); }
    }
    forall d ensures IdHit(q, l, im, d) {
      assert IdHit(p, lru, idMap, d);
      if d in im { StillThere(lru, l, n, im[d]); }
    }
    assert p[lru[n]] == p[m];
    forall k | 0 <= k < n ensures EntriesOf(q, l)[k] == EntriesOf(p, lru)[k] {
      assert l[k] == lru[k];
    }
  }

  /** Putting a loose slot at the front of the list. */
  lemma InsertStep(p: seq<Metadata>, q: seq<Metadata>, lru: seq<nat>, free: seq<nat>, newest: nat, oldest: nat, freeList: nat,
                   aliasMap: map<nat, nat>, idMap: map<nat, nat>, m: nat, id: nat, stored: nat)
    requires |p| <= 0x1000 && Loose(p, lru, free, newest, oldest, freeList, m) && Indexed(p, lru, aliasMap, idMap)
    requires id !in idMap && stored !in aliasMap
    requires m < |p| == |q| && q[m] == Metadata(id, stored, NONE_ENTRY, newest) && StoredOk(q[m], m)
    requires forall i | 0 <= i < |p| && i != m :: q[i] == if i == newest then p[i].(newer := m) else p[i]
    ensures Consistent(q, [m] + lru, free, m, if lru == [] then m else oldest, freeList)
    ensures Indexed(q, [m] + lru, aliasMap[stored := m], idMap[id := m])
    ensures EntriesOf(q, [m] + lru) == [Entry(id, Resolve(stored))] + EntriesOf(p, lru)
  {
    var l := [m] + lru;
    InsertSlots(lru, free, |p|, m, l);
    InsertLinks(p, q, lru, free, newest, m, l);
    InsertFree(p, q, lru, free, newest, m);
    InsertIndex(p, q, lru, free, newest, aliasMap, idMap, m, l);
    hide Slots, Linked, FreeLinked, Indexed;
    forall k | 0 < k < |l| ensures EntriesOf(q, l)[k] == EntriesOf(p, lru)[k - 1] {
      assert l[k] == lru[k - 1];
    }
  }

  lemma InsertSlots(lru: seq<nat>, free: seq<nat>, n: nat, m: nat, l: seq<nat>)
    requires Slots(lru, [m] + free, n) && l == [m] + lru
    ensures Slots(l, free, n)
    ensures forall k | 0 <= k < |lru| :: lru[k] != m
    ensures forall k | 0 <= k < |free| :: free[k] != m
  {
    var f := [m] + free;
    assert forall k | 0 < k < |l| :: l[k] == lru[k - 1];
    assert f[0] == m && forall k | 0 <= k < |free| :: f[k + 1] == free[k];
    forall k | 0 <= k < |lru| ensures lru[k] != m {
      assert f[0] != lru[k];
    }
    forall a, b | 0 <= a < |lru| && 0 <= b < |free| ensures lru[a] != free[b] {
      assert f[b + 1] != lru[a];
    }
    forall a, b | 0 <= a < b < |free| ensures free[a] != free[b] {
      assert f[a + 1] != f[b + 1];
    }
    forall b | 0 <= b < |free| ensures free[b] != m && free[b] < n {
      assert f[0] != f[b + 1] && f[b + 1] < n;
    }
  }

  lemma InsertLinks(p: seq<Metadata>, q: seq<Metadata>, lru: seq<nat>, free: seq<nat>, newest: nat, m: nat, l: seq<nat>)
    requires |p| <= 0x1000 && Slots(l, free, |p|) && Linked(p, lru) && newest == At(lru, 0)
    requires l == [m] + lru && m < |p| == |q| && q[m].newer == NONE_ENTRY && q[m].older == newest
    requires forall i | 0 <= i < |p| && i != m :: q[i] == if i == newest then p[i].(newer := m) else p[i]
    ensures Linked(q, l)
  {
    assert forall k | 0 < k < |l| :: l[k] == lru[k - 1] && l[k] != l[0];
    forall i, j | 0 <= i < j == i + 1 < |l| ensures q[l[i]].older == l[j] && q[l[j]].newer == l[i] {
      if i > 0 {
        var x, y := p[lru[i - 1]], p[lru[j - 1]];
        assert x.older == lru[j - 1] && y.newer == lru[i - 1];
      }
    }
    if |lru| > 0 {
      assert p[l[|l| - 1]] == p[lru[|lru| - 1]];
    }
  }

  lemma InsertFree(p: seq<Metadata>, q: seq<Metadata>, lru: seq<nat>, free: seq<nat>, newest: nat, m: nat)
    requires |p| <= 0x1000 && Slots([m] + lru, free, |p|) && newest == At(lru, 0) && FreeLinked(p, free)
    requires m < |p| == |q|
    requires forall i | 0 <= i < |p| && i != m :: q[i] == if i == newest then p[i].(newer := m) else p[i]
    ensures FreeLinked(q, free)
  {
    var l := [m] + lru;
    assert l[0] == m && (|lru| > 0 ==> l[1] == newest);
    forall k | 0 <= k < |free| ensures free[k] < |q| && q[free[k]] == p[free[k]] {
      assert l[0] != free[k];
      if |lru| > 0 { assert l[1] != free[k]; }
    }
  }

  lemma InsertIndex(p: seq<Metadata>, q: seq<Metadata>, lru: seq<nat>, free: seq<nat>, newest: nat,
                    aliasMap: map<nat, nat>, idMap: map<nat, nat>, m: nat, l: seq<nat>)
    requires Slots(l, free, |p|) && Indexed(p, lru, aliasMap, idMap) && l == [m] + lru
    requires m < |p| == |q| && StoredOk(q[m], m) && q[m].nodeId !in idMap && q[m].alias !in aliasMap
    requires forall i | 0 <= i < |p| && i != m :: q[i] == if i == newest then p[i].(newer := m) else p[i]
    ensures Indexed(q, l, aliasMap[q[m].alias := m], idMap[q[m].nodeId := m])
  {
    var am, im := aliasMap[q[m].alias := m], idMap[q[m].nodeId := m];
    forall k | 0 <= k < |l|
      ensures l[k] < |q| && StoredOk(q[l[k]], l[k])
      ensures q[l[k]].alias in am && am[q[l[k]].alias] == l[k]
      ensures q[l[k]].nodeId in im && im[q[l[k]].nodeId] == l[k]
    {
      if k > 0 { assert l[k] == lru[k - 1] && l[0] != l[k] && p[lru[k - 1]].alias == q[l[k]].alias; }
    }
    assert forall s | s in lru :: s in l && s != m by {
      forall s | s in lru ensures s in l && s != m {
        assert l[1 + Pos(lru, s)] == s && l[0] == m;
      }
    }
    forall a ensures AliasHit(q, l, am, a) {
      assert AliasHit(p, lru, aliasMap, a);
    }
    forall d ensures IdHit(q, l, im, d) {
      assert IdHit(p, lru, idMap, d);
    }
  }

  lemma StoredKey(p: seq<Metadata>, lru: seq<nat>, aliasMap: map<nat, nat>, idMap: map<nat, nat>, a: nat)
    requires Indexed(p, lru, aliasMap, idMap) && a in aliasMap
    ensures aliasMap[a] in lru && (PlainAlias(a) || a == NOT_RESPONDING + aliasMap[a])
  {
    assert AliasHit(p, lru, aliasMap, a);
    var j := Pos(lru, aliasMap[a]);
    assert StoredOk(p[lru[j]], lru[j]);
  }

  /** No used slot carries the sentinel of a loose one. */
  lemma SentinelUnused(p: seq<Metadata>, lru: seq<nat>, free: seq<nat>, m: nat, aliasMap: map<nat, nat>, idMap: map<nat, nat>)
    requires |p| <= 0x1000 && Slots(lru, [m] + free, |p|) && Indexed(p, lru, aliasMap, idMap)
    ensures m < 0x1000 && NOT_RESPONDING + m !in aliasMap
  {
    assert ([m] + free)[0] == m;
    assert m !in lru;
    if NOT_RESPONDING + m in aliasMap {
      StoredKey(p, lru, aliasMap, idMap, NOT_RESPONDING + m);
    }
  }

  lemma UsedSlot(p: seq<Metadata>, lru: seq<nat>, aliasMap: map<nat, nat>, idMap: map<nat, nat>, slot: nat)
    requires Indexed(p, lru, aliasMap, idMap) && slot in lru
    ensures slot < |p| && p[slot].alias in aliasMap && aliasMap[p[slot].alias] == slot
  {
    var j := Pos(lru, slot);
    assert StoredOk(p[lru[j]], lru[j]);
  }

  lemma LooseFacts(p: seq<Metadata>, lru: seq<nat>, free: seq<nat>, newest: nat, oldest: nat, freeList: nat, m: nat)
    requires |p| <= 0x1000 && Loose(p, lru, free, newest, oldest, freeList, m)
    ensures m < |p| && newest != m
    ensures newest == NONE_ENTRY <==> lru == []
    ensures newest == NONE_ENTRY ==> oldest == NONE_ENTRY
    ensures newest != NONE_ENTRY ==> newest < |p|
  {
    assert ([m] + free)[0] == m;
  }
}
