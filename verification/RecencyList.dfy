/** The abstract value of an alias cache: the known (node ID, alias) pairs, the
    most recently used first. The functions below say what one cache operation
    does to that list; `AliasCache` is proved against them. */
module RecencyList {

  /** Alias stored for a node that is known not to answer (Defs.hxx). */
  const NOT_RESPONDING: nat := 0xF000

  datatype Entry = Entry(id: nat, alias: nat)

  predicate IdOk(id: nat) { 0 < id < 0x1_0000_0000_0000 }

  predicate PlainAlias(a: nat) { 0 < a < 0x1000 }

  predicate AliasOk(a: nat) { PlainAlias(a) || a == NOT_RESPONDING }

  /** Each node has one alias, and each real alias one node. */
  ghost predicate Distinct(es: seq<Entry>) {
    && (forall i | 0 <= i < |es| :: IdOk(es[i].id) && AliasOk(es[i].alias))
    && (forall i, j | 0 <= i < j < |es| :: es[i].id != es[j].id)
    && (forall i, j | 0 <= i < j < |es| :: es[i].alias == es[j].alias ==> es[i].alias == NOT_RESPONDING)
  }

  /** Position of the entry of node `id`, or the length if there is none. */
  function IndexOfId(es: seq<Entry>, id: nat): (i: nat)
    ensures i <= |es|
    ensures i < |es| ==> es[i].id == id
    ensures forall k | 0 <= k < i :: es[k].id != id
  {
    if es == [] || es[0].id == id then 0 else 1 + IndexOfId(es[1..], id)
  }

  function IndexOfAlias(es: seq<Entry>, alias: nat): (i: nat)
    ensures i <= |es|
    ensures i < |es| ==> es[i].alias == alias
    ensures forall k | 0 <= k < i :: es[k].alias != alias
  {
    if es == [] || es[0].alias == alias then 0 else 1 + IndexOfAlias(es[1..], alias)
  }

  function Without<T>(s: seq<T>, i: nat): seq<T> {
    if i < |s| then s[..i] + s[i + 1..] else s
  }

  /** Moves element `i` to the front. */
  function Touched<T>(s: seq<T>, i: nat): seq<T> {
    if i < |s| then [s[i]] + s[..i] + s[i + 1..] else s
  }

  /** What an add leaves of the old entries, before eviction. */
  function Purged(es: seq<Entry>, id: nat, alias: nat): seq<Entry> {
    var e1 := if alias == NOT_RESPONDING then es else Without(es, IndexOfAlias(es, alias));
    Without(e1, IndexOfId(e1, id))
  }

  function Added(es: seq<Entry>, capacity: nat, id: nat, alias: nat): seq<Entry>
    requires capacity > 0
  {
    var rest := Purged(es, id, alias);
    [Entry(id, alias)] + if |rest| < capacity then rest else rest[..capacity - 1]
  }

  /** The entries an add reports through the remove callback, in order. */
  function Reported(es: seq<Entry>, capacity: nat, id: nat, alias: nat): seq<Entry>
    requires capacity > 0
  {
    var rest := Purged(es, id, alias);
    PurgedReport(es, id, alias) + if |rest| < capacity then [] else rest[capacity - 1..]
  }

  /** The part of Reported that comes from the purge. */
  function PurgedReport(es: seq<Entry>, id: nat, alias: nat): seq<Entry> {
    var a := if alias == NOT_RESPONDING then |es| else IndexOfAlias(es, alias);
    var e1 := Without(es, a);
    var i := IndexOfId(e1, id);
    (if a < |es| then [es[a]] else []) + (if i < |e1| then [e1[i]] else [])
  }

  // ---------------------------------------------------------------------

  lemma AddedMeaning(es: seq<Entry>, capacity: nat, id: nat, alias: nat)
    requires capacity > 0
    ensures var rest, c := Purged(es, id, alias), capacity;
      && Added(es, c, id, alias) == [Entry(id, alias)] + (if |rest| < c then rest else rest[..c - 1])
      && Reported(es, c, id, alias) == PurgedReport(es, id, alias) + if |rest| < c then [] else rest[c - 1..]
  {}

  /** Purged and PurgedReport in two steps, and what they achieve. */
  lemma PurgeMeaning(es: seq<Entry>, id: nat, alias: nat)
    requires Distinct(es) && AliasOk(alias)
    ensures var a := IndexOfAlias(es, alias);
      var e1 := if alias != NOT_RESPONDING && a < |es| then Without(es, a) else es;
      var i := IndexOfId(e1, id);
      var e2 := if i < |e1| then Without(e1, i) else e1;
      && Purged(es, id, alias) == e2
      && PurgedReport(es, id, alias)
         == (if alias != NOT_RESPONDING && a < |es| then [es[a]] else []) + (if i < |e1| then [e1[i]] else [])
      && IndexOfId(e2, id) == |e2|
      && (alias != NOT_RESPONDING ==> PlainAlias(alias) && IndexOfAlias(e2, alias) == |e2|)
  {
    hide IndexOfId, IndexOfAlias, Distinct, Without;
    PurgedIsClean(es, id, alias);
    WithoutAt(es, IndexOfAlias(es, alias));
    var r := Purged(es, id, alias);
    var e1 := if alias == NOT_RESPONDING then es else Without(es, IndexOfAlias(es, alias));
    WithoutAt(e1, IndexOfId(e1, id));
    var i, a := IndexOfId(r, id), IndexOfAlias(r, alias);
    assert i == |r| && (alias != NOT_RESPONDING ==> a == |r|);
    PurgedTwice(es, id, alias);
  }

  lemma PurgedTwice(es: seq<Entry>, id: nat, alias: nat)
    ensures var a := if alias == NOT_RESPONDING then |es| else IndexOfAlias(es, alias);
      var e1 := Without(es, a);
      Purged(es, id, alias) == Without(e1, IndexOfId(e1, id)) && (a == |es| ==> e1 == es)
  {
    hide IndexOfId, IndexOfAlias;
  }

  lemma WithoutAt<T>(s: seq<T>, i: nat)
    ensures i < |s| ==>
      && |Without(s, i)| == |s| - 1
      && forall k {:trigger Without(s, i)[k]} | 0 <= k < |s| - 1 :: Without(s, i)[k] == s[if k < i then k else k + 1]
    ensures i >= |s| ==> Without(s, i) == s
  {}

  lemma WithoutDistinct(es: seq<Entry>, i: nat)
    requires Distinct(es)
    ensures Distinct(Without(es, i))
  {
    WithoutAt(es, i);
    hide Without;
  }

  /** Every operation keeps the pairs distinct and within the capacity. */
  lemma AddedDistinct(es: seq<Entry>, capacity: nat, id: nat, alias: nat)
    requires capacity > 0 && Distinct(es) && |es| <= capacity && IdOk(id) && AliasOk(alias)
    ensures Distinct(Added(es, capacity, id, alias)) && |Added(es, capacity, id, alias)| <= capacity
  {
    PurgedIsClean(es, id, alias);
    hide Purged;
    var r, a := Purged(es, id, alias), Added(es, capacity, id, alias);
    assert a[0] == Entry(id, alias);
    forall k | 0 < k < |a| ensures a[k] == r[k - 1] {}
  }

  lemma PurgedIsClean(es: seq<Entry>, id: nat, alias: nat)
    requires Distinct(es) && AliasOk(alias)
    ensures var r := Purged(es, id, alias);
      && Distinct(r) && |r| <= |es|
      && (forall k | 0 <= k < |r| :: r[k].id != id && (r[k].alias == alias ==> alias == NOT_RESPONDING))
  {
    var e1 := if alias == NOT_RESPONDING then es else Without(es, IndexOfAlias(es, alias));
    if alias != NOT_RESPONDING { DropAlias(es, alias); }
    DropId(e1, id);
    WithoutAt(e1, IndexOfId(e1, id));
    hide Without, IndexOfId, IndexOfAlias, Distinct;
  }

  lemma DropAlias(es: seq<Entry>, alias: nat)
    requires Distinct(es) && alias != NOT_RESPONDING
    ensures var r := Without(es, IndexOfAlias(es, alias));
      Distinct(r) && |r| <= |es| && forall k | 0 <= k < |r| :: r[k].alias != alias
  {
    WithoutDistinct(es, IndexOfAlias(es, alias));
    WithoutAt(es, IndexOfAlias(es, alias));
    hide Without, IndexOfAlias;
  }

  lemma DropId(es: seq<Entry>, id: nat)
    requires Distinct(es)
    ensures var r := Without(es, IndexOfId(es, id));
      Distinct(r) && |r| <= |es| && forall k | 0 <= k < |r| :: r[k].id != id && r[k] in es
  {
    WithoutDistinct(es, IndexOfId(es, id));
    WithoutAt(es, IndexOfId(es, id));
    hide Without, IndexOfId;
  }

  lemma TouchedAt<T>(s: seq<T>, i: nat)
    requires i < |s|
    ensures |Touched(s, i)| == |s|
    ensures forall k | 0 <= k < |s| :: Touched(s, i)[k] == s[if k == 0 then i else if k <= i then k - 1 else k]
    ensures multiset(Touched(s, i)) == multiset(s)
  {
    assert s == s[..i] + [s[i]] + s[i + 1..];
  }

  lemma TouchedFront<T>(s: seq<T>)
    requires s != []
    ensures Touched(s, 0) == s
  {}

  lemma TouchedDistinct(es: seq<Entry>, i: nat)
    requires Distinct(es)
    ensures Distinct(Touched(es, i)) && |Touched(es, i)| == |es|
  {
    if i < |es| {
      TouchedAt(es, i);
      var t := Touched(es, i);
      forall p, q | 0 <= p < q < |t|
        ensures t[p].id != t[q].id && (t[p].alias == t[q].alias ==> t[p].alias == NOT_RESPONDING)
      {
        var p' := if p == 0 then i else if p <= i then p - 1 else p;
        var q' := if q <= i then q - 1 else q;
        assert t[p] == es[p'] && t[q] == es[q'] && p' != q';
      }
    }
  }

  // ---------------------------------------------------------------------
  // Whole runs

  /** RemoveMarkOp is a removal by NOT_RESPONDING: it takes the entry of `marked`, the
      node that has the mark of slot 0, whichever that is. A lookup by that value likewise
      is a lookup of that node. */
  datatype Op =
    | AddOp(id: nat, alias: nat)
    | RemoveOp(alias: nat)
    | RemoveMarkOp(marked: nat)
    | LookupIdOp(id: nat)
    | LookupAliasOp(alias: nat)
    | ClearOp
  {
    predicate Ok() {
      match this
      case AddOp(id, alias) => IdOk(id) && AliasOk(alias)
      case RemoveOp(alias) => PlainAlias(alias)
      case RemoveMarkOp(marked) => true
      case LookupIdOp(id) => id != 0
      case LookupAliasOp(alias) => PlainAlias(alias)
      case ClearOp => true
    }

    /** Does this operation, if it finds entry `e`, use it? */
    predicate Uses(e: Entry) {
      match this
      case AddOp(id, alias) => e == Entry(id, alias)
      case LookupIdOp(id) => e.id == id
      case LookupAliasOp(alias) => e.alias == alias
      case _ => false
    }
  }

  function Apply(es: seq<Entry>, capacity: nat, op: Op): seq<Entry>
    requires capacity > 0
  {
    match op
    case AddOp(id, alias) => Added(es, capacity, id, alias)
    case RemoveOp(alias) => Without(es, IndexOfAlias(es, alias))
    case RemoveMarkOp(marked) => Without(es, IndexOfId(es, marked))
    case LookupIdOp(id) => Touched(es, IndexOfId(es, id))
    case LookupAliasOp(alias) => Touched(es, IndexOfAlias(es, alias))
    case ClearOp => []
  }

  function Run(capacity: nat, ops: seq<Op>): seq<Entry>
    requires capacity > 0
  {
    if ops == [] then [] else Apply(Run(capacity, ops[..|ops| - 1]), capacity, ops[|ops| - 1])
  }

  ghost predicate AllOk(ops: seq<Op>) { forall op | op in ops :: op.Ok() }

  lemma ApplyDistinct(es: seq<Entry>, capacity: nat, op: Op)
    requires capacity > 0 && Distinct(es) && |es| <= capacity && op.Ok()
    ensures Distinct(Apply(es, capacity, op)) && |Apply(es, capacity, op)| <= capacity
  {
    match op
    case AddOp(id, alias) => AddedDistinct(es, capacity, id, alias);
    case RemoveOp(alias) => DropAlias(es, alias);
    case RemoveMarkOp(marked) => WithoutDistinct(es, IndexOfId(es, marked));
    case LookupIdOp(id) => TouchedDistinct(es, IndexOfId(es, id));
    case LookupAliasOp(alias) => TouchedDistinct(es, IndexOfAlias(es, alias));
    case ClearOp =>
  }

  /** No run ever holds two entries for one node or one alias, or more than fit. */
  lemma {:induction false} RunDistinct(capacity: nat, ops: seq<Op>)
    requires capacity > 0 && AllOk(ops)
    ensures Distinct(Run(capacity, ops)) && |Run(capacity, ops)| <= capacity
  {
    if ops != [] {
      RunDistinct(capacity, ops[..|ops| - 1]);
      ApplyDistinct(Run(capacity, ops[..|ops| - 1]), capacity, ops[|ops| - 1]);
    }
  }

  /** One more than the time of the last operation that uses `e`; 0 if there is none. */
  function LastUse(ops: seq<Op>, e: Entry): (t: nat)
    ensures t <= |ops|
    ensures t > 0 ==> ops[t - 1].Uses(e)
    ensures forall k | t <= k < |ops| :: !ops[k].Uses(e)
  {
    if ops == [] then 0
    else if ops[|ops| - 1].Uses(e) then |ops|
    else LastUse(ops[..|ops| - 1], e)
  }

  ghost predicate ByRecency(ops: seq<Op>, es: seq<Entry>) {
    && (forall i | 0 <= i < |es| :: LastUse(ops, es[i]) > 0)
    && (forall i, j | 0 <= i < j < |es| :: LastUse(ops, es[i]) > LastUse(ops, es[j]))
  }

  /** The one entry an operation puts in front; the rest keep their order. */
  lemma ApplyShape(es: seq<Entry>, capacity: nat, op: Op) returns (from: seq<int>)
    requires capacity > 0 && Distinct(es) && |es| <= capacity && op.Ok()
    ensures var r := Apply(es, capacity, op);
      && |from| == |r|
      && (forall i | 0 <= i < |r| :: -1 <= from[i] < |es|)
      && (forall i | 0 <= i < |r| :: from[i] >= 0 ==> r[i] == es[from[i]])
      && (forall i | 0 <= i < |r| :: op.Uses(r[i]) ==> i == 0)
      && (forall i | 0 <= i < |r| :: from[i] == -1 ==> i == 0 && op.Uses(r[i]))
      && (forall i, j | 0 <= i < j < |r| :: from[i] < from[j] || (i == 0 && op.Uses(r[0])))
  {
    hide Distinct, Touched, IndexOfId, IndexOfAlias, Added, Without;
    match op
    case AddOp(id, alias) => from := AddShape(es, capacity, id, alias);
    case RemoveOp(alias) => from := WithoutPicks(es, IndexOfAlias(es, alias));
    case RemoveMarkOp(marked) => from := WithoutPicks(es, IndexOfId(es, marked));
    case LookupIdOp(id) => from := TouchShape(es, IndexOfId(es, id), op);
    case LookupAliasOp(alias) => from := TouchShape(es, IndexOfAlias(es, alias), op);
    case ClearOp => from := [];
  }

  lemma TouchShape(es: seq<Entry>, a: nat, op: Op) returns (from: seq<int>)
    requires Distinct(es) && op.Ok() && (op.LookupIdOp? || op.LookupAliasOp?)
    requires a == if op.LookupIdOp? then IndexOfId(es, op.id) else IndexOfAlias(es, op.alias)
    ensures var r := Touched(es, a);
      && |from| == |r|
      && (forall i | 0 <= i < |r| :: 0 <= from[i] < |es| && r[i] == es[from[i]])
      && (forall i | 0 <= i < |r| :: op.Uses(r[i]) ==> i == 0)
      && (forall i, j | 0 <= i < j < |r| :: from[i] < from[j] || (i == 0 && op.Uses(r[0])))
  {
    hide *;
    UsedAt(es, a, op);
    if a < |es| {
      TouchedAt(es, a);
      from := seq(|es|, i => if i == 0 then a else if i <= a then i - 1 else i);
      forall i | 0 < i < |es| ensures !op.Uses(Touched(es, a)[i]) {
        assert Touched(es, a)[i] == es[from[i]] && from[i] != a;
      }
    } else {
      from := seq(|es|, i => i);
      TouchedNothing(es, a);
    }
  }

  /** A lookup uses the entry that it finds, and no other. */
  lemma UsedAt(es: seq<Entry>, a: nat, op: Op)
    requires Distinct(es) && op.Ok() && (op.LookupIdOp? || op.LookupAliasOp?)
    requires a == if op.LookupIdOp? then IndexOfId(es, op.id) else IndexOfAlias(es, op.alias)
    ensures a <= |es| && forall k | 0 <= k < |es| :: op.Uses(es[k]) <==> k == a
  {
    if op.LookupIdOp? { FoundById(es, op.id); } else { FoundByAlias(es, op.alias); }
    hide Distinct;
  }

  lemma TouchedNothing<T>(s: seq<T>, i: nat)
    requires i >= |s|
    ensures Touched(s, i) == s
  {}

  lemma AddShape(es: seq<Entry>, capacity: nat, id: nat, alias: nat) returns (from: seq<int>)
    requires capacity > 0 && Distinct(es) && |es| <= capacity && IdOk(id) && AliasOk(alias)
    ensures var r := Added(es, capacity, id, alias);
      && |from| == |r| > 0 && from[0] == -1 && r[0] == Entry(id, alias)
      && (forall i | 0 < i < |r| :: 0 <= from[i] < |es| && r[i] == es[from[i]] && r[i].id != id)
      && (forall i, j | 0 <= i < j < |r| :: from[i] < from[j])
  {
    PurgedIsClean(es, id, alias);
    AddedAt(es, capacity, id, alias);
    var pos := PurgedAt(es, id, alias);
    var rest, r := Purged(es, id, alias), Added(es, capacity, id, alias);
    hide Purged, Added, Distinct;
    from := [-1] + pos[..|r| - 1];
    forall k | 0 < k < |r| ensures 0 <= from[k] < |es| && r[k] == es[from[k]] && r[k].id != id {
      assert r[k] == rest[k - 1] && from[k] == pos[k - 1];
    }
  }

  lemma AddedAt(es: seq<Entry>, capacity: nat, id: nat, alias: nat)
    requires capacity > 0
    ensures var r, rest := Added(es, capacity, id, alias), Purged(es, id, alias);
      && 0 < |r| <= |rest| + 1 && r[0] == Entry(id, alias)
      && forall k | 0 < k < |r| :: r[k] == rest[k - 1]
  {
    hide Purged;
  }

  /** `r` consists of the elements of `s` at the increasing positions `pos`. */
  ghost predicate PickedAt<T>(s: seq<T>, r: seq<T>, pos: seq<int>) {
    && |pos| == |r|
    && (forall k | 0 <= k < |r| :: 0 <= pos[k] < |s| && r[k] == s[pos[k]])
    && (forall k, l | 0 <= k < l < |r| :: pos[k] < pos[l])
  }

  lemma WithoutPicks<T>(s: seq<T>, i: nat) returns (pos: seq<int>)
    ensures PickedAt(s, Without(s, i), pos)
  {
    WithoutAt(s, i);
    hide Without;
    pos := seq(|Without(s, i)|, k => Skip(i, k));
  }

  lemma PicksCompose<T>(s: seq<T>, m: seq<T>, r: seq<T>, p: seq<int>, q: seq<int>) returns (pos: seq<int>)
    requires PickedAt(s, m, p) && PickedAt(m, r, q)
    ensures PickedAt(s, r, pos)
  {
    pos := seq(|r|, k requires 0 <= k < |r| => p[q[k]]);
  }

  /** Where the entries that outlive a purge stood before it. */
  lemma PurgedAt(es: seq<Entry>, id: nat, alias: nat) returns (pos: seq<int>)
    ensures PickedAt(es, Purged(es, id, alias), pos)
  {
    var a := if alias == NOT_RESPONDING then |es| else IndexOfAlias(es, alias);
    var e1 := Without(es, a);
    var i := IndexOfId(e1, id);
    assert Without(e1, i) == Purged(es, id, alias);
    hide *;
    var p := WithoutPicks(es, a);
    var q := WithoutPicks(e1, i);
    pos := PicksCompose(es, e1, Without(e1, i), p, q);
  }

  function Skip(gap: nat, k: int): int { if k < gap then k else k + 1 }

  /** After any run the entries stand exactly in the order of their last use. */
  lemma {:induction false} RunByRecency(capacity: nat, ops: seq<Op>)
    requires capacity > 0 && AllOk(ops)
    ensures ByRecency(ops, Run(capacity, ops))
  {
    if ops != [] {
      var before, op := ops[..|ops| - 1], ops[|ops| - 1];
      RunByRecency(capacity, before);
      RunDistinct(capacity, before);
      var r, es := Run(capacity, ops), Run(capacity, before);
      assert r == Apply(es, capacity, op) && ops == before + [op] && op.Ok();
      hide *;
      var from := ApplyShape(es, capacity, op);
      StepByRecency(before, op, es, r, from);
    }
  }

  lemma StepByRecency(before: seq<Op>, op: Op, es: seq<Entry>, r: seq<Entry>, from: seq<int>)
    requires ByRecency(before, es) && |from| == |r| && op.Ok()
    requires forall i | 0 <= i < |r| :: -1 <= from[i] < |es|
    requires forall i | 0 <= i < |r| :: from[i] >= 0 ==> r[i] == es[from[i]]
    requires forall i | 0 <= i < |r| :: op.Uses(r[i]) ==> i == 0
    requires forall i | 0 <= i < |r| :: from[i] == -1 ==> i == 0 && op.Uses(r[i])
    requires forall i, j | 0 <= i < j < |r| :: from[i] < from[j] || (i == 0 && op.Uses(r[0]))
    ensures ByRecency(before + [op], r)
  {
    var ops := before + [op];
    assert ops[..|ops| - 1] == before && ops[|ops| - 1] == op;
    forall i | 0 <= i < |r|
      ensures LastUse(ops, r[i]) == if op.Uses(r[i]) then |ops| else LastUse(before, es[from[i]])
    {}
    hide LastUse;
  }

  /** An entry leaves on an add only when it contradicts the new pair, or is the oldest of a full cache. */
  lemma SurvivesAdd(es: seq<Entry>, capacity: nat, id: nat, alias: nat, e: Entry)
    requires capacity > 0 && Distinct(es) && |es| <= capacity && IdOk(id) && AliasOk(alias) && e in es
    requires e != Entry(id, alias)
    ensures var rest := Purged(es, id, alias);
      e in Added(es, capacity, id, alias) <==>
        && e.id != id && (e.alias == alias ==> alias == NOT_RESPONDING)
        && !(|rest| == capacity && e == rest[capacity - 1])
  {
    var rest, r := Purged(es, id, alias), Added(es, capacity, id, alias);
    PurgedIsClean(es, id, alias);
    AddedAt(es, capacity, id, alias);
    assert |r| == if |rest| < capacity then |rest| + 1 else capacity;
    if e.id != id && (e.alias == alias ==> alias == NOT_RESPONDING) {
      PurgedKeeps(es, id, alias, e);
      hide *;
      var k :| 0 <= k < |rest| && rest[k] == e;
      CutAt(rest, r, capacity, k);
    } else {
      hide Purged, Added, Distinct;
      forall j | 0 <= j < |r| ensures r[j] != e {
        if j > 0 { assert r[j] == rest[j - 1]; }
      }
    }
  }

  /** Only the last entry of a full list is cut off when one is put in front. */
  lemma CutAt(rest: seq<Entry>, r: seq<Entry>, capacity: nat, k: nat)
    requires Distinct(rest) && k < |rest| <= capacity && |r| == if |rest| < capacity then |rest| + 1 else capacity
    requires forall j | 0 < j < |r| :: r[j] == rest[j - 1]
    requires r[0] != rest[k]
    ensures rest[k] in r <==> !(|rest| == capacity && rest[k] == rest[capacity - 1])
  {
    if k + 1 < |r| {
      assert r[k + 1] == rest[k];
      assert |rest| == capacity ==> rest[k].id != rest[capacity - 1].id;
    } else {
      forall j | 0 <= j < |r| ensures r[j] != rest[k] {
        if j > 0 { assert rest[j - 1].id != rest[k].id; }
      }
    }
  }

  lemma PurgedKeeps(es: seq<Entry>, id: nat, alias: nat, e: Entry)
    requires e in es && e.id != id && (e.alias == alias ==> alias == NOT_RESPONDING)
    ensures e in Purged(es, id, alias)
  {
    var a := if alias == NOT_RESPONDING then |es| else IndexOfAlias(es, alias);
    var e1 := Without(es, a);
    var i := IndexOfId(e1, id);
    WithoutKeeps(es, a, e);
    WithoutKeeps(e1, i, e);
    hide Without, IndexOfAlias, IndexOfId;
  }

  lemma WithoutKeeps<T(!new)>(s: seq<T>, i: nat, x: T)
    requires x in s && (i < |s| ==> x != s[i])
    ensures x in Without(s, i)
  {
    var k :| 0 <= k < |s| && s[k] == x;
    if i < |s| {
      assert Without(s, i)[if k < i then k else k - 1] == x;
    }
  }

  // ---------------------------------------------------------------------
  // A node announces its alias

  /** What the announcement of `alias` by node `id` does. A node that was marked as not
      responding is removed by its mark, and that removes node `marked`, which has the
      mark of slot 0 (0 if nobody has it). */
  function Announced(es: seq<Entry>, capacity: nat, id: nat, alias: nat, marked: nat): seq<Entry>
    requires capacity > 0
  {
    var i := IndexOfId(es, id);
    var t := Touched(es, i);
    if i == |es| then Added(es, capacity, id, alias)
    else if es[i].alias == alias then t
    else if es[i].alias == NOT_RESPONDING then Added(Without(t, IndexOfId(t, marked)), capacity, id, alias)
    else Added(Without(t, IndexOfAlias(t, es[i].alias)), capacity, id, alias)
  }

  /** An entry of another node that does not contradict the new pair is lost in two cases
      only: the announcing node was marked and the entry is the mark of slot 0, or the
      announcing node is new, the cache is full, and the entry is the oldest. */
  lemma AnnouncedKeeps(es: seq<Entry>, capacity: nat, id: nat, alias: nat, marked: nat, x: Entry)
    requires capacity > 0 && Distinct(es) && |es| <= capacity && IdOk(id) && PlainAlias(alias)
    requires marked != 0 ==> Entry(marked, NOT_RESPONDING) in es
    requires x in es && x.id != id && x.alias != alias
    ensures var rest := Purged(es, id, alias);
      x in Announced(es, capacity, id, alias, marked) <==>
        && !(Entry(id, NOT_RESPONDING) in es && x.id == marked)
        && !(IndexOfId(es, id) == |es| && |rest| == capacity && x == rest[capacity - 1])
  {
    hide Purged, Added, Touched, Without, IndexOfAlias, IndexOfId;
    var i := IndexOfId(es, id);
    var t := Touched(es, i);
    if i == |es| {
      SurvivesAdd(es, capacity, id, alias, x);
      NobodyElse(es, id);
    } else {
      TouchedDistinct(es, i);
      TouchedAt(es, i);
      SameMembers(es, t);
      assert t[0] == es[i];
      NobodyElse(es, id);
      if es[i].alias == alias {
        assert forall k | 0 <= k < |es| && es[k].id == id :: k == i;
      } else if es[i].alias == NOT_RESPONDING {
        KeptWithout(t, capacity, id, alias, IndexOfId(t, marked), x);
        FoundById(t, marked);
      } else {
        var a := IndexOfAlias(t, es[i].alias);
        assert a == 0;
        KeptWithout(t, capacity, id, alias, a, x);
        assert forall k | 0 <= k < |es| && es[k].id == id :: k == i;
      }
    }
  }

  /** The announced pair is in front afterwards, nothing contradicts it, and nothing else
      is new. */
  lemma AnnouncedPair(es: seq<Entry>, capacity: nat, id: nat, alias: nat, marked: nat)
    requires capacity > 0 && Distinct(es) && |es| <= capacity && IdOk(id) && PlainAlias(alias)
    ensures var r := Announced(es, capacity, id, alias, marked);
      && r != [] && r[0] == Entry(id, alias) && Distinct(r) && |r| <= capacity
      && forall x | x in r :: x == Entry(id, alias) || x in es
  {
    hide Purged, Added, Touched, Without, IndexOfAlias, IndexOfId, Distinct;
    var i := IndexOfId(es, id);
    var t := Touched(es, i);
    if i == |es| {
      FrontPair(es, es, capacity, id, alias);
    } else {
      TouchedDistinct(es, i);
      TouchedAt(es, i);
      SameMembers(es, t);
      assert t[0] == es[i];
      if es[i].alias != alias {
        var k := if es[i].alias == NOT_RESPONDING then IndexOfId(t, marked) else IndexOfAlias(t, es[i].alias);
        WithoutDistinct(t, k);
        WithoutAt(t, k);
        forall e ensures e in Without(t, k) ==> e in t { WithoutMembers(t, k, e); }
        FrontPair(es, Without(t, k), capacity, id, alias);
      }
    }
  }

  lemma FrontPair(es: seq<Entry>, m: seq<Entry>, capacity: nat, id: nat, alias: nat)
    requires capacity > 0 && Distinct(m) && |m| <= capacity && IdOk(id) && PlainAlias(alias)
    requires forall e | e in m :: e in es
    ensures var r := Added(m, capacity, id, alias);
      && r != [] && r[0] == Entry(id, alias) && Distinct(r) && |r| <= capacity
      && forall x | x in r :: x == Entry(id, alias) || x in es
  {
    hide Added, Purged, Reported, Distinct;
    AddedAt(m, capacity, id, alias);
    AddedDistinct(m, capacity, id, alias);
    forall x ensures x in Added(m, capacity, id, alias) ==> x == Entry(id, alias) || x in m {
      AddMembers(m, capacity, id, alias, x);
    }
  }

  lemma SameMembers(s: seq<Entry>, t: seq<Entry>)
    requires multiset(s) == multiset(t)
    ensures forall e :: e in s <==> e in t
  {
    forall e ensures e in s <==> e in t {
      assert e in s <==> e in multiset(s);
      assert e in t <==> e in multiset(t);
    }
  }

  /** A node has at most the entry that its index gives. */
  lemma NobodyElse(es: seq<Entry>, id: nat)
    requires Distinct(es)
    ensures forall e | e in es && e.id == id :: IndexOfId(es, id) < |es| && e == es[IndexOfId(es, id)]
  {
    hide IndexOfId;
    var i := IndexOfId(es, id);
    forall e | e in es && e.id == id ensures i < |es| && e == es[i] {
      var k :| 0 <= k < |es| && es[k] == e;
    }
  }

  lemma FoundById(es: seq<Entry>, id: nat)
    requires Distinct(es)
    ensures forall k | 0 <= k < |es| :: es[k].id == id <==> k == IndexOfId(es, id)
  {
    hide IndexOfId;
  }

  /** Taking out entry `k` and then adding a pair for a node that is known evicts nobody. */
  lemma KeptWithout(t: seq<Entry>, capacity: nat, id: nat, alias: nat, k: nat, x: Entry)
    requires capacity > 0 && Distinct(t) && 0 < |t| <= capacity && IdOk(id) && PlainAlias(alias)
    requires t[0].id == id && x in t && x.id != id && x.alias != alias
    ensures x in Added(Without(t, k), capacity, id, alias) <==> !(k < |t| && x == t[k])
  {
    hide Purged, Added, IndexOfAlias, IndexOfId;
    var m := Without(t, k);
    WithoutDistinct(t, k);
    WithoutAt(t, k);
    PurgedLength(m, id, alias);
    var j :| 0 <= j < |t| && t[j] == x;
    if k < |t| && j == k {
      assert forall e | e in m :: e != x;
      NotAdded(m, capacity, id, alias, x);
    } else {
      WithoutKeeps(t, k, x);
      SurvivesAdd(m, capacity, id, alias, x);
    }
  }

  lemma NotAdded(m: seq<Entry>, capacity: nat, id: nat, alias: nat, x: Entry)
    requires capacity > 0 && x !in m && x != Entry(id, alias)
    ensures x !in Added(m, capacity, id, alias)
  {
    AddedAt(m, capacity, id, alias);
    var pos := PurgedAt(m, id, alias);
    var r, rest := Added(m, capacity, id, alias), Purged(m, id, alias);
    hide Added, Purged;
    forall k | 0 <= k < |r| ensures r[k] != x {
      if k > 0 { assert r[k] == rest[k - 1] == m[pos[k - 1]]; }
    }
  }

  /** A purge that finds the node makes the list shorter. */
  lemma PurgedLength(es: seq<Entry>, id: nat, alias: nat)
    requires Distinct(es)
    ensures |Purged(es, id, alias)| <= |es|
    ensures (exists k :: 0 <= k < |es| && es[k].id == id) ==> |Purged(es, id, alias)| < |es|
  {
    hide IndexOfAlias, IndexOfId;
    var a := if alias == NOT_RESPONDING then |es| else IndexOfAlias(es, alias);
    var e1 := Without(es, a);
    if k :| 0 <= k < |es| && es[k].id == id {
      if a == |es| { assert e1 == es; }
    }
  }

  // ---------------------------------------------------------------------
  // An add, as a set of pairs

  lemma WithoutMembers(es: seq<Entry>, a: nat, e: Entry)
    requires Distinct(es)
    ensures e in Without(es, a) <==> e in es && !(a < |es| && e == es[a])
  {
    if a < |es| {
      assert es == es[..a] + [es[a]] + es[a + 1..];
    }
  }

  lemma FoundByAlias(es: seq<Entry>, alias: nat)
    requires Distinct(es) && PlainAlias(alias)
    ensures forall k | 0 <= k < |es| :: es[k].alias == alias <==> k == IndexOfAlias(es, alias)
  {
    hide IndexOfAlias;
  }

  /** The holder of the alias is reported before that of the node. */
  lemma PurgedReportOrder(es: seq<Entry>, id: nat, alias: nat, d: nat, b: nat)
    requires Distinct(es) && PlainAlias(alias)
    requires Entry(d, alias) in es && Entry(id, b) in es && d != id
    ensures PurgedReport(es, id, alias) == [Entry(d, alias), Entry(id, b)]
  {
    hide IndexOfId, IndexOfAlias;
    var a := IndexOfAlias(es, alias);
    FoundByAlias(es, alias);
    var e1 := Without(es, a);
    WithoutDistinct(es, a);
    WithoutMembers(es, a, Entry(id, b));
    FoundById(e1, id);
  }

  lemma PurgedReportMembers(es: seq<Entry>, id: nat, alias: nat, e: Entry)
    requires Distinct(es) && PlainAlias(alias)
    ensures e in PurgedReport(es, id, alias) <==> e in es && (e.id == id || e.alias == alias)
    ensures e in Purged(es, id, alias) ==> e in es
  {
    hide IndexOfId, IndexOfAlias, Without, Distinct;
    var a := IndexOfAlias(es, alias);
    var e1 := Without(es, a);
    WithoutDistinct(es, a);
    FoundByAlias(es, alias);
    FoundById(e1, id);
    WithoutMembers(es, a, e);
    WithoutMembers(e1, IndexOfId(e1, id), e);
  }

  /** The callback reports exactly the entries that contradict the new pair, and the
      oldest of a full cache. */
  lemma ReportedMembers(es: seq<Entry>, capacity: nat, id: nat, alias: nat, e: Entry)
    requires capacity > 0 && Distinct(es) && |es| <= capacity && PlainAlias(alias)
    ensures var rest := Purged(es, id, alias);
      e in Reported(es, capacity, id, alias) <==>
        e in es && (e.id == id || e.alias == alias || (|rest| == capacity && e == rest[capacity - 1]))
  {
    hide Purged, PurgedReport, Distinct;
    PurgedReportMembers(es, id, alias, e);
    PurgedLength(es, id, alias);
  }

  /** An add leaves the entries that it does not report, and brings the new pair. */
  lemma AddMembers(es: seq<Entry>, capacity: nat, id: nat, alias: nat, e: Entry)
    requires capacity > 0 && Distinct(es) && |es| <= capacity && IdOk(id) && PlainAlias(alias)
    ensures e in Added(es, capacity, id, alias) <==>
      e == Entry(id, alias) || (e in es && e !in Reported(es, capacity, id, alias))
  {
    hide Purged, Reported, Added, Distinct;
    if e == Entry(id, alias) {
      AddedAt(es, capacity, id, alias);
    } else if e in es {
      SurvivesAdd(es, capacity, id, alias, e);
      ReportedMembers(es, capacity, id, alias, e);
    } else {
      NotAdded(es, capacity, id, alias, e);
    }
  }
}
