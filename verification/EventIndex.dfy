/** The registry of event handlers (TreeEventHandlers in
    src/openlcb/EventHandlerContainer.cpp, with SortedListSet of
    src/utils/SortedListMap.hxx): one list per block length, each sorted when it is
    next looked at. The reference is a scan over everything registered. */
module EventIndex {
  import opened Bits
  import opened EventRange
  import opened Options

  datatype Entry = Entry(event: nat, handler: int, userArg: bv32)

  /** An entry and the number of low bits its block leaves open. */
  datatype Registration = Registration(entry: Entry, mask: nat)

  /** The events `event` to `event + mask`. */
  datatype Report = Report(event: nat, mask: nat)

  predicate ReportOk(r: Report) { r.event + r.mask < WORD }

  /** Does the block of the entry have an event in common with the report? */
  predicate Meets(e: Entry, mask: nat, r: Report) {
    e.event <= r.event + r.mask && r.event < e.event + Pow2(mask)
  }

  /** The handlers that a scan of all registrations finds. */
  function LinearScan(regs: seq<Registration>, r: Report): seq<Entry> {
    if regs == [] then []
    else
      var x := regs[|regs| - 1];
      LinearScan(regs[..|regs| - 1], r) + if Meets(x.entry, x.mask, r) then [x.entry] else []
  }

  /** What the index looks for in the list of a block length. */
  predicate Window(e: Entry, mask: nat, r: Report) {
    mask == 64 || RoundDown(r.event, mask) <= e.event <= r.event + r.mask
  }

  predicate Aligned(e: Entry, mask: nat) {
    mask <= 64 && e.event % Pow2(mask) == 0 && e.event + Pow2(mask) <= WORD
  }

  lemma WindowIsMeets(e: Entry, mask: nat, r: Report)
    requires Aligned(e, mask) && ReportOk(r)
    ensures Window(e, mask, r) <==> Meets(e, mask, r)
  {
    WordSizes();
    RoundDownAligned(r.event, mask);
    hide Pow2;
    MultiplesApart(e.event, RoundDown(r.event, mask), Pow2(mask));
    hide RoundDown;
  }

  /** Multiples of `m` are equal or at least `m` apart. */
  lemma MultiplesApart(a: nat, b: nat, m: nat)
    requires m > 0 && a % m == 0 && b % m == 0
    ensures a < b ==> a + m <= b
  {
    var q := CongElim(b, a, m);
    SmallMultiple(q, m);
  }

  /** Only aligned entries are always found: for any other entry, its own last event is a
      report that the index misses. */
  lemma AlignmentIsNeeded(e: Entry, mask: nat)
    requires mask < 64 && e.event + Pow2(mask) <= WORD && !Aligned(e, mask)
    ensures var r := Report(e.event + Pow2(mask) - 1, 0);
      ReportOk(r) && Meets(e, mask, r) && !Window(e, mask, r)
  {
    var r := Report(e.event + Pow2(mask) - 1, 0);
    if Window(e, mask, r) {
      RoundDownAligned(r.event, mask);
    }
  }

  /** No event of a range registered by way of AlignMask is missed. */
  lemma RangeIsFound(first: nat, size: nat, mask: nat, handler: int, arg: bv32, event: nat)
    requires Smallest(first, size, mask) && mask <= 64 && first <= event < first + size <= WORD
    ensures Window(Entry(RoundDown(first, mask), handler, arg), mask, Report(event, 0))
  {
    RoundDownAligned(first, mask);
    AlignedBase(event, RoundDown(first, mask), mask);
  }

  // ---------------------------------------------------------------------
  // Counting entries

  function EntriesAt(regs: seq<Registration>, mask: nat): seq<Entry> {
    if regs == [] then []
    else
      var x := regs[|regs| - 1];
      EntriesAt(regs[..|regs| - 1], mask) + if x.mask == mask then [x.entry] else []
  }

  function InWindow(s: seq<Entry>, mask: nat, r: Report): seq<Entry> {
    if s == [] then []
    else InWindow(s[..|s| - 1], mask, r) + if Window(s[|s| - 1], mask, r) then [s[|s| - 1]] else []
  }

  /** What is to be found in the lists for `mask` and above. */
  function Hits(regs: seq<Registration>, mask: nat, r: Report): multiset<Entry>
    decreases 65 - mask
  {
    if mask > 64 then multiset{}
    else multiset(InWindow(EntriesAt(regs, mask), mask, r)) + Hits(regs, mask + 1, r)
  }

  lemma {:induction false} InWindowCount(s: seq<Entry>, mask: nat, r: Report, x: Entry)
    ensures multiset(InWindow(s, mask, r))[x] == if Window(x, mask, r) then multiset(s)[x] else 0
  {
    hide Window;
    if s != [] {
      InWindowCount(s[..|s| - 1], mask, r, x);
      assert s == s[..|s| - 1] + [s[|s| - 1]];
    }
  }

  lemma InWindowPermuted(s: seq<Entry>, t: seq<Entry>, mask: nat, r: Report)
    requires multiset(s) == multiset(t)
    ensures multiset(InWindow(s, mask, r)) == multiset(InWindow(t, mask, r))
  {
    hide InWindow, Window;
    forall x ensures multiset(InWindow(s, mask, r))[x] == multiset(InWindow(t, mask, r))[x] {
      InWindowCount(s, mask, r, x);
      InWindowCount(t, mask, r, x);
    }
  }

  /** One more registration adds itself to the hits, if it is one. */
  lemma {:induction false} HitsAdd(regs: seq<Registration>, x: Registration, mask: nat, r: Report)
    requires mask <= 65
    ensures Hits(regs + [x], mask, r)
      == Hits(regs, mask, r) + if mask <= x.mask <= 64 && Window(x.entry, x.mask, r) then multiset{x.entry} else multiset{}
    decreases 65 - mask
  {
    hide Window;
    if mask <= 64 {
      HitsAdd(regs, x, mask + 1, r);
      assert (regs + [x])[..|regs|] == regs;
      var s := EntriesAt(regs, mask);
      if x.mask == mask {
        var t := s + [x.entry];
        assert EntriesAt(regs + [x], mask) == t && t[..|s|] == s && t[|s|] == x.entry;
        assert InWindow(t, mask, r) == InWindow(s, mask, r) + if Window(x.entry, mask, r) then [x.entry] else [];
      } else {
        assert EntriesAt(regs + [x], mask) == s + [] == s;
      }
    }
  }

  /** The index finds what the scan finds. */
  lemma {:induction false} HitsAreScan(regs: seq<Registration>, r: Report)
    requires ReportOk(r) && forall x | x in regs :: Aligned(x.entry, x.mask)
    ensures Hits(regs, 0, r) == multiset(LinearScan(regs, r))
  {
    if regs == [] {
      NoHits(0, r);
    } else {
      var x := regs[|regs| - 1];
      assert regs == regs[..|regs| - 1] + [x];
      HitsAreScan(regs[..|regs| - 1], r);
      HitsAdd(regs[..|regs| - 1], x, 0, r);
      WindowIsMeets(x.entry, x.mask, r);
      hide Window, Meets, Hits;
    }
  }

  lemma {:induction false} NoHits(mask: nat, r: Report)
    ensures Hits([], mask, r) == multiset{}
    decreases 65 - mask
  {
    if mask <= 64 { NoHits(mask + 1, r); }
  }

  // ---------------------------------------------------------------------
  // The list of one block length

  predicate Sorted(s: seq<Entry>) {
    forall i, j | 0 <= i < j < |s| :: s[i].event <= s[j].event
  }

  /** The first `sortedCount` elements are in order. */
  datatype OneMaskMap = OneMaskMap(container: seq<Entry>, sortedCount: nat) {
    predicate Ok() { sortedCount <= |container| && Sorted(container[..sortedCount]) }

    predicate Settled() { sortedCount == |container| && Sorted(container) }
  }

  /** `std::sort`; nothing is assumed about the order among equal events. */
  method Sort(s: seq<Entry>) returns (t: seq<Entry>)
    ensures Sorted(t) && multiset(t) == multiset(s)
  {
    hide Sorted, LowerBound;
    t := [];
    SortedEmpty();
    for i := 0 to |s|
      invariant Sorted(t) && multiset(t) == multiset(s[..i])
    {
      var at := LowerBound(t, s[i].event);
      InsertSorted(t, s[i], at);
      assert s[..i + 1] == s[..i] + [s[i]];
      t := t[..at] + [s[i]] + t[at..];
    }
    assert s[..|s|] == s;
  }

  lemma InsertSorted(t: seq<Entry>, x: Entry, at: nat)
    requires Sorted(t) && at == LowerBound(t, x.event)
    ensures Sorted(t[..at] + [x] + t[at..])
    ensures multiset(t[..at] + [x] + t[at..]) == multiset(t) + multiset{x}
  {
    hide LowerBound;
    assert t == t[..at] + t[at..];
  }

  lemma SortedEmpty()
    ensures Sorted([])
  {}

  method LazyInit(m: OneMaskMap) returns (n: OneMaskMap)
    requires m.Ok()
    ensures n.Settled() && multiset(n.container) == multiset(m.container)
  {
    n := m;
    if m.sortedCount != |m.container| {
      var t := Sort(m.container);
      assert |t| == |multiset(t)|;
      n := OneMaskMap(t, |t|);
    } else {
      assert m.container[..m.sortedCount] == m.container;
    }
  }

  function LowerBound(s: seq<Entry>, key: nat): (i: nat)
    ensures i <= |s|
    ensures Sorted(s) ==> forall j | 0 <= j < |s| :: j < i <==> s[j].event < key
  {
    if s == [] || s[|s| - 1].event < key then |s| else LowerBound(s[..|s| - 1], key)
  }

  function UpperBound(s: seq<Entry>, key: nat): (i: nat)
    ensures i <= |s|
    ensures Sorted(s) ==> forall j | 0 <= j < |s| :: j < i <==> s[j].event <= key
  {
    if s == [] || s[|s| - 1].event <= key then |s| else UpperBound(s[..|s| - 1], key)
  }

  /** Two binary searches cut the window out of a sorted list. */
  lemma {:induction false} WindowIsSlice(s: seq<Entry>, lo: nat, hi: nat, mask: nat, r: Report)
    requires lo <= hi <= |s|
    requires forall j | 0 <= j < |s| :: Window(s[j], mask, r) <==> lo <= j < hi
    ensures InWindow(s, mask, r) == s[lo..hi]
  {
    hide Window;
    if s != [] {
      var n := |s| - 1;
      var t := s[..n];
      WindowIsSlice(t, if lo < n then lo else n, if hi < n then hi else n, mask, r);
    }
  }

  // ---------------------------------------------------------------------
  // The registry

  predicate Matches(e: Entry, handler: int, userArg: bv32, userArgMask: bv32) {
    e.handler == handler && e.userArg & userArgMask == userArg & userArgMask
  }

  function Kept(s: seq<Entry>, handler: int, arg: bv32, argMask: bv32): seq<Entry> {
    if s == [] then []
    else Kept(s[..|s| - 1], handler, arg, argMask)
         + if Matches(s[|s| - 1], handler, arg, argMask) then [] else [s[|s| - 1]]
  }

  function KeptRegistrations(s: seq<Registration>, handler: int, arg: bv32, argMask: bv32): (t: seq<Registration>)
    ensures forall x :: x in t <==> x in s && !Matches(x.entry, handler, arg, argMask)
  {
    if s == [] then []
    else KeptRegistrations(s[..|s| - 1], handler, arg, argMask)
         + if Matches(s[|s| - 1].entry, handler, arg, argMask) then [] else [s[|s| - 1]]
  }

  lemma {:induction false} KeptCount(s: seq<Entry>, handler: int, arg: bv32, argMask: bv32, x: Entry)
    ensures multiset(Kept(s, handler, arg, argMask))[x] == if Matches(x, handler, arg, argMask) then 0 else multiset(s)[x]
  {
    hide Matches;
    if s != [] {
      KeptCount(s[..|s| - 1], handler, arg, argMask, x);
      assert s == s[..|s| - 1] + [s[|s| - 1]];
    }
  }

  /** What is unregistered: of the named handler, every registration whose argument is the
      given one under the mask, however often it is there; of other handlers, none. */
  lemma UnregisteredExactly(s: seq<Registration>, handler: int, arg: bv32, argMask: bv32, x: Registration)
    ensures multiset(KeptRegistrations(s, handler, arg, argMask))[x]
      == if x.entry.handler == handler && x.entry.userArg & argMask == arg & argMask then 0 else multiset(s)[x]
  {
    hide *;
    MatchesMeaning(x.entry, handler, arg, argMask);
    RegistrationCount(s, handler, arg, argMask, x);
  }

  lemma {:induction false} RegistrationCount(s: seq<Registration>, handler: int, arg: bv32, argMask: bv32, x: Registration)
    ensures multiset(KeptRegistrations(s, handler, arg, argMask))[x]
      == if Matches(x.entry, handler, arg, argMask) then 0 else multiset(s)[x]
  {
    if s != [] {
      hide *;
      var front, y := s[..|s| - 1], s[|s| - 1];
      assert s == front + [y];
      RegistrationCount(front, handler, arg, argMask, x);
      KeptRegistrationsStep(front, y, handler, arg, argMask);
    }
  }

  lemma MatchesMeaning(e: Entry, handler: int, arg: bv32, argMask: bv32)
    ensures Matches(e, handler, arg, argMask) <==> e.handler == handler && e.userArg & argMask == arg & argMask
  {
    if e.userArg & argMask == arg & argMask {} else {}
  }

  /** The same for the two ends: other handlers stay, and with a mask of 0 all that the
      named one has goes. */
  lemma UnregisteredHandlers(s: seq<Registration>, handler: int, arg: bv32, argMask: bv32)
    ensures var t := KeptRegistrations(s, handler, arg, argMask);
      && (forall x | x in s && x.entry.handler != handler :: x in t)
      && (argMask == 0 ==> forall x | x in t :: x.entry.handler != handler)
  {}

  lemma EntriesStep(regs: seq<Registration>, x: Registration, mask: nat)
    ensures EntriesAt(regs + [x], mask)
      == if x.mask == mask then EntriesAt(regs, mask) + [x.entry] else EntriesAt(regs, mask)
  {
    assert (regs + [x])[..|regs|] == regs;
  }

  lemma KeptStep(s: seq<Entry>, x: Entry, handler: int, arg: bv32, argMask: bv32)
    ensures Kept(s + [x], handler, arg, argMask)
      == if Matches(x, handler, arg, argMask) then Kept(s, handler, arg, argMask) else Kept(s, handler, arg, argMask) + [x]
  {
    hide Matches;
    assert (s + [x])[..|s|] == s;
  }

  lemma KeptRegistrationsStep(s: seq<Registration>, x: Registration, handler: int, arg: bv32, argMask: bv32)
    ensures KeptRegistrations(s + [x], handler, arg, argMask)
      == if Matches(x.entry, handler, arg, argMask) then KeptRegistrations(s, handler, arg, argMask)
         else KeptRegistrations(s, handler, arg, argMask) + [x]
  {
    hide Matches;
    assert (s + [x])[..|s|] == s;
  }

  lemma {:induction false} KeptEntries(regs: seq<Registration>, mask: nat, handler: int, arg: bv32, argMask: bv32)
    ensures EntriesAt(KeptRegistrations(regs, handler, arg, argMask), mask)
      == Kept(EntriesAt(regs, mask), handler, arg, argMask)
  {
    if regs == [] {
    } else {
      hide *;
      var n := |regs| - 1;
      var front, x := regs[..n], regs[n];
      assert regs == front + [x];
      KeptEntries(front, mask, handler, arg, argMask);
      EntriesStep(KeptRegistrations(front, handler, arg, argMask), x, mask);
      EntriesStep(front, x, mask);
      KeptStep(EntriesAt(front, mask), x.entry, handler, arg, argMask);
      KeptRegistrationsStep(front, x, handler, arg, argMask);
    }
  }

  lemma KeptPermuted(s: seq<Entry>, t: seq<Entry>, handler: int, arg: bv32, argMask: bv32)
    requires multiset(s) == multiset(t)
    ensures multiset(Kept(s, handler, arg, argMask)) == multiset(Kept(t, handler, arg, argMask))
  {
    hide Kept, Matches;
    forall x ensures multiset(Kept(s, handler, arg, argMask))[x] == multiset(Kept(t, handler, arg, argMask))[x] {
      KeptCount(s, handler, arg, argMask, x);
      KeptCount(t, handler, arg, argMask, x);
    }
  }

  lemma {:induction false} KeptSorted(s: seq<Entry>, handler: int, arg: bv32, argMask: bv32)
    requires Sorted(s)
    ensures var t := Kept(s, handler, arg, argMask);
      Sorted(t) && (t != [] ==> s != [] && t[|t| - 1].event <= s[|s| - 1].event)
  {
    hide Matches;
    if s != [] {
      KeptSorted(s[..|s| - 1], handler, arg, argMask);
    }
  }

  /** The list for `mask` holds what is registered for it. */
  ghost predicate ListOk(regs: seq<Registration>, mask: nat, list: OneMaskMap) {
    mask <= 64 && list.Ok() && multiset(list.container) == multiset(EntriesAt(regs, mask))
  }

  ghost predicate Indexed(regs: seq<Registration>, handlers: map<nat, OneMaskMap>) {
    && (forall k | k in handlers :: ListOk(regs, k, handlers[k]))
    && (forall x | x in regs :: x.mask in handlers)
  }

  /** The next key of the map, as `++` on its iterator finds it; 65 stands for the end. */
  function NextKey(handlers: map<nat, OneMaskMap>, k: nat): (n: nat)
    requires k <= 65
    ensures k <= n <= 65 && (n <= 64 ==> n in handlers) && forall j | k <= j < n :: j !in handlers
    decreases 65 - k
  {
    if k == 65 || k in handlers then k else NextKey(handlers, k + 1)
  }

  class TreeEventHandlers {
    var handlers: map<nat, OneMaskMap>
    ghost var registered: seq<Registration>

    ghost predicate Valid()
      reads this
    {
      Indexed(registered, handlers)
    }

    constructor ()
      ensures Valid() && registered == [] && handlers == map[]
    {
      handlers, registered := map[], [];
    }

    method RegisterHandler(entry: Entry, mask: nat)
      requires Valid() && mask <= 64
      modifies this
      ensures Valid() && registered == old(registered) + [Registration(entry, mask)]
    {
      var list := if mask in handlers then handlers[mask] else OneMaskMap([], 0);
      AddIndexed(registered, handlers, Registration(entry, mask));
      handlers := handlers[mask := OneMaskMap(list.container + [entry], list.sortedCount)];
      registered := registered + [Registration(entry, mask)];
    }

    /** Takes the matching entries out of every list. */
    method UnregisterHandler(handler: int, userArg: bv32, userArgMask: bv32)
      requires Valid()
      modifies this
      ensures Valid() && registered == KeptRegistrations(old(registered), handler, userArg, userArgMask)
      ensures forall x | x in old(registered) && x.entry.handler != handler :: x in registered
      ensures userArgMask == 0 ==> forall x | x in registered :: x.entry.handler != handler
    {
      UnregisteredHandlers(registered, handler, userArg, userArgMask);
      hide Indexed, ListOk, NextKey, Kept, KeptRegistrations, EntriesAt, Sorted, Matches;
      IndexedMeaning(registered, handlers);
      ghost var was, regs := handlers, KeptRegistrations(registered, handler, userArg, userArgMask);
      var r := NextKey(handlers, 0);
      while r <= 64
        invariant r <= 65 && (r <= 64 ==> r in was) && handlers.Keys == was.Keys && registered == old(registered)
        invariant forall k | k in handlers && k < r :: ListOk(regs, k, handlers[k])
        invariant forall k | k in handlers && k >= r :: ListOk(registered, k, handlers[k])
        decreases 65 - r
      {
        ListMeaning(registered, r, handlers[r]);
        var list := LazyInit(handlers[r]);
        var kept := RemoveIf(list.container, handler, userArg, userArgMask);
        KeptList(registered, r, list, handler, userArg, userArgMask);
        handlers := handlers[r := OneMaskMap(kept, |kept|)];
        r := NextKey(handlers, r + 1);
      }
      registered := regs;
      KeysStay(old(registered), was, handlers, handler, userArg, userArgMask);
    }
  }

  /** `std::remove_if` and the erasure of the tail. */
  method RemoveIf(s: seq<Entry>, handler: int, userArg: bv32, userArgMask: bv32) returns (t: seq<Entry>)
    requires Sorted(s)
    ensures t == Kept(s, handler, userArg, userArgMask) && Sorted(t)
  {
    t := [];
    for i := 0 to |s|
      invariant t == Kept(s[..i], handler, userArg, userArgMask)
    {
      assert s[..i + 1][..i] == s[..i];
      if !Matches(s[i], handler, userArg, userArgMask) {
        t := t + [s[i]];
      }
    }
    assert s[..|s|] == s;
    KeptSorted(s, handler, userArg, userArgMask);
  }

  lemma ListMeaning(regs: seq<Registration>, mask: nat, list: OneMaskMap)
    requires ListOk(regs, mask, list)
    ensures mask <= 64 && list.Ok() && multiset(list.container) == multiset(EntriesAt(regs, mask))
  {}

  lemma IndexedMeaning(regs: seq<Registration>, handlers: map<nat, OneMaskMap>)
    requires Indexed(regs, handlers)
    ensures forall k | k in handlers :: ListOk(regs, k, handlers[k])
  {}

  lemma KeptList(regs: seq<Registration>, mask: nat, list: OneMaskMap, handler: int, arg: bv32, argMask: bv32)
    requires mask <= 64 && list.Settled() && multiset(list.container) == multiset(EntriesAt(regs, mask))
    ensures var kept := Kept(list.container, handler, arg, argMask);
      ListOk(KeptRegistrations(regs, handler, arg, argMask), mask, OneMaskMap(kept, |kept|))
  {
    var kept := Kept(list.container, handler, arg, argMask);
    hide Kept, EntriesAt, KeptRegistrations, Matches;
    KeptEntries(regs, mask, handler, arg, argMask);
    KeptPermuted(list.container, EntriesAt(regs, mask), handler, arg, argMask);
    KeptSorted(list.container, handler, arg, argMask);
    assert kept[..|kept|] == kept;
  }

  lemma KeysStay(regs: seq<Registration>, was: map<nat, OneMaskMap>, now: map<nat, OneMaskMap>,
      handler: int, arg: bv32, argMask: bv32)
    requires Indexed(regs, was) && was.Keys == now.Keys
    requires forall k | k in now && k < 65 :: ListOk(KeptRegistrations(regs, handler, arg, argMask), k, now[k])
    ensures Indexed(KeptRegistrations(regs, handler, arg, argMask), now)
  {
    hide KeptRegistrations, Matches, EntriesAt;
    assert forall k | k in now :: k in was && ListOk(regs, k, was[k]);
  }

  lemma AddIndexed(regs: seq<Registration>, handlers: map<nat, OneMaskMap>, x: Registration)
    requires Indexed(regs, handlers) && x.mask <= 64
    ensures var list := if x.mask in handlers then handlers[x.mask] else OneMaskMap([], 0);
      Indexed(regs + [x], handlers[x.mask := OneMaskMap(list.container + [x.entry], list.sortedCount)])
  {
    hide EntriesAt, ListOk, Sorted;
    var list := if x.mask in handlers then handlers[x.mask] else OneMaskMap([], 0);
    var after := handlers[x.mask := OneMaskMap(list.container + [x.entry], list.sortedCount)];
    if x.mask !in handlers {
      NothingAt(regs, x.mask);
      EmptyList(regs, x.mask);
    }
    AddToList(regs, x, list);
    forall k | k in after && k != x.mask ensures ListOk(regs + [x], k, after[k]) {
      OtherList(regs, x, k, handlers[k]);
    }
  }

  lemma EmptyList(regs: seq<Registration>, mask: nat)
    requires EntriesAt(regs, mask) == [] && mask <= 64
    ensures ListOk(regs, mask, OneMaskMap([], 0))
  {}

  lemma AddToList(regs: seq<Registration>, x: Registration, list: OneMaskMap)
    requires ListOk(regs, x.mask, list)
    ensures ListOk(regs + [x], x.mask, OneMaskMap(list.container + [x.entry], list.sortedCount))
  {
    hide EntriesAt, Sorted;
    EntriesStep(regs, x, x.mask);
    assert (list.container + [x.entry])[..list.sortedCount] == list.container[..list.sortedCount];
  }

  lemma OtherList(regs: seq<Registration>, x: Registration, mask: nat, list: OneMaskMap)
    requires ListOk(regs, mask, list) && x.mask != mask
    ensures ListOk(regs + [x], mask, list)
  {
    EntriesStep(regs, x, mask);
    hide EntriesAt;
  }

  lemma {:induction false} NothingAt(regs: seq<Registration>, mask: nat)
    requires forall x | x in regs :: x.mask != mask
    ensures EntriesAt(regs, mask) == []
  {
    if regs != [] { NothingAt(regs[..|regs| - 1], mask); }
  }

  /** Lists that are not there have no hits. */
  lemma {:induction false} HitsSkip(regs: seq<Registration>, handlers: map<nat, OneMaskMap>, j: nat, k: nat, r: Report)
    requires Indexed(regs, handlers) && j <= k <= 65 && forall i | j <= i < k :: i !in handlers
    ensures Hits(regs, j, r) == Hits(regs, k, r)
    decreases k - j
  {
    if j < k {
      HitsSkip(regs, handlers, j + 1, k, r);
      NothingAt(regs, j);
    }
  }

  /** The iteration over the handlers for a report. `maskIterator` is the current key, or 65. */
  class Iterator {
    const parent: TreeEventHandlers
    var currentReport: Report
    var maskIterator: nat
    var it: nat
    var end: nat

    ghost predicate Valid()
      reads this, parent
    {
      && parent.Valid() && ReportOk(currentReport) && 0 in parent.handlers && maskIterator <= 65
      && (maskIterator <= 64 ==>
            maskIterator in parent.handlers && it <= end <= |parent.handlers[maskIterator].container|)
    }

    /** What the iteration has still to return. */
    ghost function Remaining(): multiset<Entry>
      requires Valid()
      reads this, parent
    {
      if maskIterator > 64 then multiset{}
      else multiset(parent.handlers[maskIterator].container[it..end])
           + Hits(parent.registered, maskIterator + 1, currentReport)
    }

    constructor (parent: TreeEventHandlers)
      requires parent.Valid()
      modifies parent
      ensures this.parent == parent && Valid() && Remaining() == multiset{}
      ensures parent.registered == old(parent.registered)
    {
      this.parent := parent;
      currentReport, maskIterator, it, end := Report(0, 0), 65, 0, 0;
      new;
      if 0 !in parent.handlers {
        NothingAt(parent.registered, 0);
        parent.handlers := parent.handlers[0 := OneMaskMap([], 0)];
        assert forall k | k in parent.handlers && k != 0 :: ListOk(parent.registered, k, old(parent.handlers)[k]);
      }
    }

    method InitIteration(r: Report)
      requires Valid() && ReportOk(r)
      modifies this, parent
      ensures Valid() && currentReport == r && parent.registered == old(parent.registered)
      ensures Remaining() == Hits(parent.registered, 0, r)
    {
      currentReport := r;
      maskIterator, it, end := NextKey(parent.handlers, 0), 0, 0;
      SetupCurrentMask();
    }

    method SetupCurrentMask()
      requires Valid() && maskIterator <= 64
      modifies this, parent
      ensures Valid() && currentReport == old(currentReport) && parent.registered == old(parent.registered)
      ensures maskIterator == old(maskIterator)
      ensures Remaining() == Hits(parent.registered, maskIterator, currentReport)
    {
      hide Indexed, ListOk, Hits, LowerBound, UpperBound, And, Pow2, RoundDown, Window, InWindow, EntriesAt, Sorted, Covers;
      var list := parent.handlers[maskIterator];
      IndexedMeaning(parent.registered, parent.handlers);
      ListMeaning(parent.registered, maskIterator, list);
      list := LazyInit(list);
      ListSettled(parent.registered, parent.handlers, maskIterator, list);
      parent.handlers := parent.handlers[maskIterator := list];
      it, end := Search(list.container, maskIterator, currentReport);
      SliceHits(parent.registered, list, maskIterator, currentReport, it, end);
    }

    static method Search(s: seq<Entry>, mask: nat, r: Report) returns (it: nat, end: nat)
      requires ReportOk(r) && mask <= 64
      ensures if mask == 64 then it == 0 && end == |s|
              else it == LowerBound(s, RoundDown(r.event, mask)) && end == UpperBound(s, r.event + r.mask)
    {
      if mask == 64 {
        return 0, |s|;
      }
      hide LowerBound, UpperBound, And, Pow2, RoundDown, Covers;
      AlignTest(r.event, 2, mask);
      var eventidKey := And(r.event, WORD - Pow2(mask));
      it := LowerBound(s, eventidKey);
      eventidKey := r.event + r.mask;
      end := UpperBound(s, eventidKey);
    }

    /** The next handler, and what is left after it. */
    method NextEntry() returns (e: Option<Entry>)
      requires Valid()
      modifies this, parent
      ensures Valid() && currentReport == old(currentReport) && parent.registered == old(parent.registered)
      ensures e.None? ==> old(Remaining()) == multiset{} == Remaining()
      ensures e.Some? ==> old(Remaining()) == multiset{e.value} + Remaining()
    {
      hide Indexed, ListOk, Hits, NextKey;
      while maskIterator <= 64
        invariant Valid() && currentReport == old(currentReport) && parent.registered == old(parent.registered)
        invariant Remaining() == old(Remaining())
        decreases 65 - maskIterator
      {
        if it == end {
          NextMask();
        } else {
          var entry := TakeEntry();
          return Some(entry);
        }
      }
      e := None;
    }

    /** `maskIterator_++`, and on to that list. */
    method NextMask()
      requires Valid() && maskIterator <= 64 && it == end
      modifies this, parent
      ensures Valid() && currentReport == old(currentReport) && parent.registered == old(parent.registered)
      ensures maskIterator > old(maskIterator) && Remaining() == old(Remaining())
    {
      hide Indexed, ListOk, Hits, NextKey;
      ghost var was := maskIterator;
      maskIterator := NextKey(parent.handlers, maskIterator + 1);
      it, end := 0, 0;
      HitsSkip(parent.registered, parent.handlers, was + 1, maskIterator, currentReport);
      NoMoreHits(parent.registered, currentReport);
      if maskIterator <= 64 {
        SetupCurrentMask();
      }
    }

    method TakeEntry() returns (e: Entry)
      requires Valid() && maskIterator <= 64 && it != end
      modifies this
      ensures Valid() && currentReport == old(currentReport) && old(Remaining()) == multiset{e} + Remaining()
    {
      hide Indexed, ListOk, Hits;
      var list := parent.handlers[maskIterator].container;
      e := list[it];
      TakeFirst(list, it, end);
      it := it + 1;
    }

    /** All handlers for a report. */
    method AllEntries(r: Report) returns (found: seq<Entry>)
      requires Valid() && ReportOk(r)
      modifies this, parent
      ensures Valid() && parent.registered == old(parent.registered)
      ensures multiset(found) == Hits(parent.registered, 0, r)
      ensures (forall x | x in parent.registered :: Aligned(x.entry, x.mask)) ==>
        multiset(found) == multiset(LinearScan(parent.registered, r))
    {
      hide *;
      InitIteration(r);
      found := [];
      ghost var all := Remaining();
      var e := NextEntry();
      while e.Some?
        invariant Valid() && parent.registered == old(parent.registered)
        invariant e.Some? ==> all == multiset(found) + multiset{e.value} + Remaining()
        invariant e.None? ==> all == multiset(found)
        decreases |Remaining()|, e.Some?
      {
        found := found + [e.value];
        e := NextEntry();
      }
      if forall x | x in parent.registered :: Aligned(x.entry, x.mask) {
        HitsAreScan(parent.registered, r);
      }
    }
  }

  lemma TakeFirst(s: seq<Entry>, lo: nat, hi: nat)
    requires lo < hi <= |s|
    ensures multiset(s[lo..hi]) == multiset{s[lo]} + multiset(s[lo + 1..hi])
  {
    assert s[lo..hi] == [s[lo]] + s[lo + 1..hi];
  }

  lemma NoMoreHits(regs: seq<Registration>, r: Report)
    ensures Hits(regs, 65, r) == multiset{}
  {}

  /** The slice between the two searches, and the hits of the lists above. */
  lemma SliceHits(regs: seq<Registration>, list: OneMaskMap, mask: nat, r: Report, lo: nat, hi: nat)
    requires mask <= 64 && ReportOk(r) && list.Settled() && multiset(list.container) == multiset(EntriesAt(regs, mask))
    requires if mask == 64 then lo == 0 && hi == |list.container|
             else lo == LowerBound(list.container, RoundDown(r.event, mask))
                  && hi == UpperBound(list.container, r.event + r.mask)
    ensures lo <= hi <= |list.container|
    ensures multiset(list.container[lo..hi]) + Hits(regs, mask + 1, r) == Hits(regs, mask, r)
  {
    SliceOk(list.container, mask, r, lo, hi);
    hide Window, RoundDown, LowerBound, UpperBound, EntriesAt, InWindow, Sorted;
    WindowIsSlice(list.container, lo, hi, mask, r);
    InWindowPermuted(list.container, EntriesAt(regs, mask), mask, r);
  }

  lemma ListSettled(regs: seq<Registration>, handlers: map<nat, OneMaskMap>, mask: nat, list: OneMaskMap)
    requires Indexed(regs, handlers) && mask in handlers
    requires list.Settled() && multiset(list.container) == multiset(handlers[mask].container)
    ensures Indexed(regs, handlers[mask := list])
  {
    var after := handlers[mask := list];
    assert list.container[..list.sortedCount] == list.container;
    forall k | k in after ensures ListOk(regs, k, after[k]) {
      assert ListOk(regs, k, handlers[k]);
    }
  }

  lemma SliceOk(s: seq<Entry>, mask: nat, r: Report, lo: nat, hi: nat)
    requires Sorted(s) && ReportOk(r) && mask <= 64
    requires if mask == 64 then lo == 0 && hi == |s|
             else lo == LowerBound(s, RoundDown(r.event, mask)) && hi == UpperBound(s, r.event + r.mask)
    ensures lo <= hi <= |s| && forall j | 0 <= j < |s| :: Window(s[j], mask, r) <==> lo <= j < hi
  {
    hide RoundDown, LowerBound, UpperBound;
    var x := if hi < |s| then s[hi].event else 0;
  }
}
