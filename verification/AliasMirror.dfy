/** The local alias cache of a node as the protocol sees it: a map from aliases to node
    IDs. Every operation on the cache is a step of `AliasProtocol`, and each entry that
    an add pushes out is one more step, in which the node forgets an alias. */
module AliasMirror {
  import opened RecencyList
  import opened AliasProtocol

  /** `local` is what the entries say. */
  ghost predicate Mirrors(es: seq<Entry>, local: map<nat, nat>) {
    forall a: nat, d: nat :: a in local && local[a] == d <==> Entry(d, a) in es
  }

  /** A local cache has only real aliases. */
  ghost predicate LocalEntries(es: seq<Entry>, capacity: nat) {
    0 < capacity && |es| <= capacity && Distinct(es) && forall e | e in es :: PlainAlias(e.alias)
  }

  lemma Once(es: seq<Entry>, capacity: nat, e: Entry, f: Entry)
    requires LocalEntries(es, capacity) && e in es && f in es && (e.alias == f.alias || e.id == f.id)
    ensures e == f
  {
    var i :| 0 <= i < |es| && es[i] == e;
    var j :| 0 <= j < |es| && es[j] == f;
  }

  /** The node forgets the aliases of `gone`, one step each, but not `kept`. */
  function ForgetAll(me: int, x: Node, gone: seq<Entry>, kept: nat): Node
    decreases |gone|
  {
    if gone == [] then x
    else if gone[0].alias == kept then ForgetAll(me, x, gone[1..], kept)
    else ForgetAll(me, Fire(me, x, Forget(gone[0].alias)).0, gone[1..], kept)
  }

  lemma {:induction false} ForgetAllLocal(me: int, x: Node, gone: seq<Entry>, kept: nat)
    ensures var y := ForgetAll(me, x, gone, kept);
      && y.alloc == x.alloc && y.defender == x.defender && y.inbox == x.inbox && y.queue == x.queue
      && (forall a: nat :: a in y.local <==> a in x.local && (a == kept || forall e | e in gone :: e.alias != a))
      && (forall a: nat | a in y.local :: y.local[a] == x.local[a])
    decreases |gone|
  {
    if gone == [] {
    } else {
      var g, rest := gone[0], gone[1..];
      assert gone == [g] + rest;
      var next := if g.alias == kept then x else Fire(me, x, Forget(g.alias)).0;
      ForgetAllLocal(me, next, rest, kept);
      assert forall e :: e in gone <==> e == g || e in rest;
    }
  }

  /** No operation brings anything but real aliases into a local cache. */
  lemma LocalEntriesStay(es: seq<Entry>, capacity: nat, id: nat, alias: nat, i: nat)
    requires LocalEntries(es, capacity) && IdOk(id) && PlainAlias(alias)
    ensures LocalEntries(Added(es, capacity, id, alias), capacity)
    ensures LocalEntries(Without(es, i), capacity) && LocalEntries(Touched(es, i), capacity)
  {
    hide Added, Reported, Touched, Distinct;
    AddedDistinct(es, capacity, id, alias);
    WithoutDistinct(es, i);
    TouchedDistinct(es, i);
    forall e | e in Added(es, capacity, id, alias) ensures PlainAlias(e.alias) {
      AddMembers(es, capacity, id, alias, e);
    }
    TouchMembers(es, i);
  }

  /** An add to the cache: the new pair, and one Forget per reported entry. */
  lemma AddMirrors(me: int, x: Node, local: map<nat, nat>, es: seq<Entry>, capacity: nat, id: nat, alias: nat)
    requires LocalEntries(es, capacity) && IdOk(id) && PlainAlias(alias)
    requires Mirrors(es, local) && x.local == local[alias := id]
    ensures Mirrors(Added(es, capacity, id, alias), ForgetAll(me, x, Reported(es, capacity, id, alias), alias).local)
  {
    var r, gone := Added(es, capacity, id, alias), Reported(es, capacity, id, alias);
    var y := ForgetAll(me, x, gone, alias);
    hide *;
    ForgetAllLocal(me, x, gone, alias);
    forall a: nat, d: nat ensures a in y.local && y.local[a] == d <==> Entry(d, a) in r {
      MirrorsPair(es, local, a, d);
      AddedPair(es, capacity, id, alias, a, d);
    }
    MirrorsAll(r, y.local);
  }

  lemma MirrorsPair(es: seq<Entry>, local: map<nat, nat>, a: nat, d: nat)
    requires Mirrors(es, local)
    ensures a in local && local[a] == d <==> Entry(d, a) in es
  {
  }

  lemma MirrorsAll(es: seq<Entry>, local: map<nat, nat>)
    requires forall a: nat, d: nat :: a in local && local[a] == d <==> Entry(d, a) in es
    ensures Mirrors(es, local)
  {
  }

  /** One pair after an add: the new one, or an old one whose alias is not reported. */
  lemma AddedPair(es: seq<Entry>, capacity: nat, id: nat, alias: nat, a: nat, d: nat)
    requires LocalEntries(es, capacity) && IdOk(id) && PlainAlias(alias)
    ensures Entry(d, a) in Added(es, capacity, id, alias) <==>
      if a == alias then d == id
      else Entry(d, a) in es && forall e | e in Reported(es, capacity, id, alias) :: e.alias != a
  {
    hide Added, Reported, Distinct, Purged;
    AddMembers(es, capacity, id, alias, Entry(d, a));
    if Entry(d, a) in es {
      if a == alias {
        ReportedMembers(es, capacity, id, alias, Entry(d, a));
      } else {
        OtherAlias(es, capacity, id, alias, a, d);
      }
    }
  }

  /** An alias other than the new one is dropped if its entry is reported. */
  lemma OtherAlias(es: seq<Entry>, capacity: nat, id: nat, alias: nat, a: nat, d: nat)
    requires LocalEntries(es, capacity) && PlainAlias(alias) && Entry(d, a) in es
    ensures Entry(d, a) in Reported(es, capacity, id, alias)
      <==> exists e :: e in Reported(es, capacity, id, alias) && e.alias == a
  {
    hide Reported, Purged;
    if e :| e in Reported(es, capacity, id, alias) && e.alias == a {
      ReportedMembers(es, capacity, id, alias, e);
      Once(es, capacity, e, Entry(d, a));
    }
  }

  /** Reserving an alias is the protocol's reservation step. */
  lemma ReservationStep(me: int, x: Node, es: seq<Entry>, capacity: nat)
    requires LocalEntries(es, capacity) && Mirrors(es, x.local)
    requires x.alloc.phase == Reserving && !x.alloc.conflict && PlainAlias(x.alloc.alias)
    ensures var alias := x.alloc.alias;
      var y, r := Fire(me, x, SendReservation).0, Reported(es, capacity, ReservedId(alias), alias);
      && ForgetAll(me, y, r, alias).alloc == Restarted
      && Mirrors(Added(es, capacity, ReservedId(alias), alias), ForgetAll(me, y, r, alias).local)
  {
    var alias := x.alloc.alias;
    var y := Fire(me, x, SendReservation).0;
    hide Added, Reported, ForgetAll, LocalEntries, Mirrors;
    AddMirrors(me, y, x.local, es, capacity, ReservedId(alias), alias);
    ForgetAllLocal(me, y, Reported(es, capacity, ReservedId(alias), alias), alias);
  }

  /** Handing an alias to a node is the protocol's assignment step. */
  lemma AssignmentStep(me: int, x: Node, es: seq<Entry>, capacity: nat, id: nat, alias: nat)
    requires LocalEntries(es, capacity) && Mirrors(es, x.local)
    requires IdOk(id) && PlainAlias(alias) && alias in x.local
    ensures var y := Fire(me, x, Assign(alias, id)).0;
      Mirrors(Added(es, capacity, id, alias), ForgetAll(me, y, Reported(es, capacity, id, alias), alias).local)
  {
    hide Added, Reported, ForgetAll, LocalEntries, Mirrors;
    AddMirrors(me, Fire(me, x, Assign(alias, id)).0, x.local, es, capacity, id, alias);
  }

  /** Removing an alias is a Forget step, or the step that gives it up after a conflict;
      looking one up is no step at all. */
  lemma RemovalStep(me: int, x: Node, es: seq<Entry>, capacity: nat, alias: nat, i: nat)
    requires LocalEntries(es, capacity) && Mirrors(es, x.local) && PlainAlias(alias)
    ensures Mirrors(Without(es, IndexOfAlias(es, alias)), Fire(me, x, Forget(alias)).0.local)
    ensures x.defender == Releasing(alias) ==> Fire(me, x, GiveUp).0.local == Fire(me, x, Forget(alias)).0.local
    ensures Mirrors(Touched(es, i), x.local)
  {
    hide Without, Touched, IndexOfAlias, Distinct;
    var k := IndexOfAlias(es, alias);
    FoundByAlias(es, alias);
    var y := Fire(me, x, Forget(alias)).0;
    forall a: nat, d: nat ensures a in y.local && y.local[a] == d <==> Entry(d, a) in Without(es, k) {
      WithoutMembers(es, k, Entry(d, a));
    }
    TouchMembers(es, i);
  }

  lemma TouchMembers(es: seq<Entry>, i: nat)
    ensures forall e :: e in Touched(es, i) <==> e in es
  {
    if i < |es| {
      TouchedAt(es, i);
      SameMembers(es, Touched(es, i));
    }
  }
}
