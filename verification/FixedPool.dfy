/** The pool of equal buffers (FixedPool in src/utils/Buffer.cpp and Buffer.hxx). One
    queue serves for two things: free buffers, or the clients that wait for one. */
module FixedPool {
  import opened Options

  datatype Member = Free(buffer: nat) | Waiter(client: int)

  /** A client is a flow that is told of its buffer later. */
  datatype Op = Alloc(flow: Option<int>) | Release(buffer: nat)

  /** What a call did: the buffer it returned, and the client that was given a buffer. */
  datatype Effect = Effect(result: Option<nat>, told: Option<(int, nat)>)

  datatype Pool = Pool(queue: seq<Member>, empty: bool, totalSize: int)

  // ---------------------------------------------------------------------
  // The pool object

  class FixedPool {
    const itemSize: nat
    const items: nat
    var queue: seq<Member>
    var empty: bool
    var totalSize: int

    function State(): Pool
      reads this
    {
      Pool(queue, empty, totalSize)
    }

    constructor (itemSize: nat, items: nat)
      ensures this.itemSize == itemSize && this.items == items && State() == Fresh(items)
    {
      this.itemSize, this.items, queue, empty, totalSize := itemSize, items, [], false, 0;
      new;
      for i := 0 to items
        invariant queue == AllFree(i) && !empty && totalSize == 0
      {
        queue := queue + [Member.Free(i)];
      }
    }

    method AllocUntyped(flow: Option<int>) returns (e: Effect)
      modifies this
      ensures (State(), e) == AllocStep(old(State()), itemSize, flow)
    {
      var result := None;
      if !empty {
        if queue != [] {
          var member := queue[0];
          queue := queue[1..];
          if member.Free? {
            result := Some(member.buffer);
          }
          totalSize := totalSize + itemSize;
        } else {
          empty := true;
        }
      }
      if flow.Some? && empty {
        queue := queue + [Waiter(flow.value)];
      }
      e := Effect(result, if result.Some? && flow.Some? then Some((flow.value, result.value)) else None);
    }

    method Free(item: nat) returns (e: Effect)
      requires item < items
      modifies this
      ensures (State(), e) == FreeStep(old(State()), itemSize, item)
    {
      var waiting := None;
      if empty {
        if queue != [] {
          if queue[0].Waiter? {
            waiting := Some(queue[0].client);
          }
          queue := queue[1..];
        }
        if queue == [] {
          empty := false;
        }
        if waiting.None? {
          queue := queue + [Member.Free(item)];
          totalSize := totalSize - itemSize;
        }
      } else {
        queue := queue + [Member.Free(item)];
        totalSize := totalSize - itemSize;
      }
      e := Effect(None, if waiting.Some? then Some((waiting.value, item)) else None);
    }
  }

  // ---------------------------------------------------------------------
  // The same on values

  function AllFree(items: nat): seq<Member> { seq(items, (k: nat) => Free(k)) }

  function Fresh(items: nat): Pool { Pool(AllFree(items), false, 0) }

  function AllocStep(p: Pool, itemSize: nat, flow: Option<int>): (Pool, Effect) {
    if !p.empty && p.queue != [] then
      var b := if p.queue[0].Free? then Some(p.queue[0].buffer) else None;
      (Pool(p.queue[1..], false, p.totalSize + itemSize),
       Effect(b, if b.Some? && flow.Some? then Some((flow.value, b.value)) else None))
    else
      (Pool(if flow.Some? then p.queue + [Waiter(flow.value)] else p.queue, true, p.totalSize), Effect(None, None))
  }

  function FreeStep(p: Pool, itemSize: nat, item: nat): (Pool, Effect) {
    if p.empty && p.queue != [] && p.queue[0].Waiter? then
      (Pool(p.queue[1..], p.queue[1..] != [], p.totalSize), Effect(None, Some((p.queue[0].client, item))))
    else
      var rest := if p.empty && p.queue != [] then p.queue[1..] else p.queue;
      (Pool(rest + [Free(item)], p.empty && rest != [], p.totalSize - itemSize), Effect(None, None))
  }

  /** The pool and its surroundings: the buffers handed out, the clients that asked for
      one, and those that were given one, in order. */
  datatype World = World(pool: Pool, out: set<nat>, asked: seq<int>, served: seq<int>)

  predicate Legal(w: World, op: Op) { op.Release? ==> op.buffer in w.out }

  function After(w: World, itemSize: nat, op: Op): World {
    match op
    case Alloc(flow) =>
      var (p, e) := AllocStep(w.pool, itemSize, flow);
      World(p, if e.result.Some? then w.out + {e.result.value} else w.out,
            if flow.Some? then w.asked + [flow.value] else w.asked,
            if e.told.Some? then w.served + [e.told.value.0] else w.served)
    case Release(b) =>
      var (p, e) := FreeStep(w.pool, itemSize, b);
      World(p, if e.told.Some? then w.out - {b} + {e.told.value.1} else w.out - {b}, w.asked,
            if e.told.Some? then w.served + [e.told.value.0] else w.served)
  }

  function Start(items: nat): World { World(Fresh(items), {}, [], []) }

  ghost predicate IsRun(items: nat, itemSize: nat, run: seq<World>) {
    && run != [] && run[0] == Start(items)
    && forall i | 0 <= i < |run| - 1 :: Next(itemSize, run[i], run[i + 1])
  }

  ghost predicate Next(itemSize: nat, w: World, w': World) {
    exists op :: Legal(w, op) && After(w, itemSize, op) == w'
  }

  /** The clients of a queue that holds nothing else. */
  function Clients(queue: seq<Member>): seq<int>
    requires forall m | m in queue :: m.Waiter?
  {
    seq(|queue|, i requires 0 <= i < |queue| => queue[i].client)
  }

  /** One kind of member at a time; every buffer is handed out, or free once; the total
      counts the buffers handed out; clients are served in the order in which they asked. */
  ghost predicate Inv(items: nat, itemSize: nat, w: World) {
    var q := w.pool.queue;
    && w.pool.totalSize == itemSize * |w.out|
    && (forall b | b in w.out :: b < items)
    && if w.pool.empty then
         && (forall m | m in q :: m.Waiter?)
         && (forall b: nat | b < items :: b in w.out)
         && w.asked == w.served + Clients(q)
       else
         && (forall m | m in q :: m.Free? && m.buffer < items && m.buffer !in w.out)
         && (forall b: nat | b < items :: b in w.out || Free(b) in q)
         && (forall i, j | 0 <= i < j < |q| :: q[i] != q[j])
         && w.asked == w.served
  }

  lemma StartInv(items: nat, itemSize: nat)
    ensures Inv(items, itemSize, Start(items))
  {
    forall b: nat | b < items ensures Free(b) in Start(items).pool.queue {
      assert Start(items).pool.queue[b] == Free(b);
    }
  }

  lemma AllocInv(items: nat, itemSize: nat, w: World, flow: Option<int>)
    requires Inv(items, itemSize, w)
    ensures Inv(items, itemSize, After(w, itemSize, Alloc(flow)))
  {
    var q := w.pool.queue;
    if !w.pool.empty && q != [] {
      var b := q[0].buffer;
      assert q[0] in q;
      Grow(itemSize, w.out, b);
      assert q == [q[0]] + q[1..];
    } else if flow.Some? {
      if !w.pool.empty {
        assert Clients([Waiter(flow.value)]) == [flow.value];
        assert [] + [Waiter(flow.value)] == [Waiter(flow.value)];
      } else {
        assert Clients(q + [Waiter(flow.value)]) == Clients(q) + [flow.value];
        assert w.served + Clients(q) + [flow.value] == w.served + (Clients(q) + [flow.value]);
      }
    } else if !w.pool.empty {
      assert Clients([]) == [];
    }
  }

  lemma Grow(itemSize: nat, out: set<nat>, b: nat)
    requires b !in out
    ensures itemSize * |out + {b}| == itemSize * |out| + itemSize
  {
    assert |out + {b}| == |out| + 1;
  }

  lemma FreeInv(items: nat, itemSize: nat, w: World, b: nat)
    requires Inv(items, itemSize, w) && b in w.out
    ensures Inv(items, itemSize, After(w, itemSize, Release(b)))
  {
    var q := w.pool.queue;
    Grow(itemSize, w.out - {b}, b);
    assert w.out - {b} + {b} == w.out;
    if w.pool.empty && q != [] {
      assert q[0] in q && q == [q[0]] + q[1..];
      assert Clients(q) == [q[0].client] + Clients(q[1..]);
      assert w.served + Clients(q) == w.served + [q[0].client] + Clients(q[1..]);
      assert q[1..] == [] ==> Clients(q[1..]) == [];
    } else {
      assert Free(b) in q + [Free(b)];
      assert forall m | m in q :: m in q + [Free(b)];
    }
  }

  lemma {:induction false} RunInv(items: nat, itemSize: nat, run: seq<World>, k: nat)
    requires IsRun(items, itemSize, run) && k < |run|
    ensures Inv(items, itemSize, run[k])
  {
    hide Inv, After;
    if k == 0 {
      StartInv(items, itemSize);
    } else {
      RunInv(items, itemSize, run, k - 1);
      assert Next(itemSize, run[k - 1], run[k - 1 + 1]);
      var op :| Legal(run[k - 1], op) && After(run[k - 1], itemSize, op) == run[k];
      match op
      case Alloc(flow) => AllocInv(items, itemSize, run[k - 1], flow);
      case Release(b) => FreeInv(items, itemSize, run[k - 1], b);
    }
  }

  /** The clients that asked and were not served yet, the first to ask first. */
  function Waiting(w: World): seq<int> {
    if |w.served| <= |w.asked| then w.asked[|w.served|..] else []
  }

  /** Is there a buffer that is not handed out? */
  ghost predicate SomeFree(items: nat, out: set<nat>) { exists b: nat :: b < items && b !in out }

  /** In every reachable world: an allocation returns a buffer if and only if one is not
      handed out. It is such a buffer, and a client that came with the call is told of it at
      once, and is not made to wait. Otherwise nothing is returned, and the client waits. */
  lemma AllocServes(items: nat, itemSize: nat, run: seq<World>, k: nat, flow: Option<int>)
    requires IsRun(items, itemSize, run) && k < |run|
    ensures var w, w', e := run[k], After(run[k], itemSize, Alloc(flow)), AllocStep(run[k].pool, itemSize, flow).1;
      && (e.result.Some? <==> SomeFree(items, w.out))
      && (e.result.Some? ==>
            && e.result.value < items && e.result.value !in w.out && w'.out == w.out + {e.result.value}
            && e.told == (if flow.Some? then Some((flow.value, e.result.value)) else None)
            && Waiting(w) == Waiting(w') == [])
      && (e.result.None? ==>
            && w'.out == w.out && e.told.None?
            && Waiting(w') == Waiting(w) + if flow.Some? then [flow.value] else [])
  {
    RunInv(items, itemSize, run, k);
    AllocInv(items, itemSize, run[k], flow);
    AllocEffect(items, itemSize, run[k], flow);
  }

  lemma AllocEffect(items: nat, itemSize: nat, w: World, flow: Option<int>)
    requires Inv(items, itemSize, w)
    ensures var w', e := After(w, itemSize, Alloc(flow)), AllocStep(w.pool, itemSize, flow).1;
      && (e.result.Some? <==> SomeFree(items, w.out))
      && (e.result.Some? ==>
            && e.result.value < items && e.result.value !in w.out && w'.out == w.out + {e.result.value}
            && e.told == (if flow.Some? then Some((flow.value, e.result.value)) else None)
            && Waiting(w) == Waiting(w') == [])
      && (e.result.None? ==>
            && w'.out == w.out && e.told.None?
            && Waiting(w') == Waiting(w) + if flow.Some? then [flow.value] else [])
  {
    var q := w.pool.queue;
    if !w.pool.empty && q != [] {
      assert q[0] in q && !(q[0].buffer in w.out);
    }
  }

  /** A buffer that comes back goes to the first client that waits, and stays handed out; if
      none waits, it is free again. */
  lemma ReleaseServes(items: nat, itemSize: nat, run: seq<World>, k: nat, b: nat)
    requires IsRun(items, itemSize, run) && k < |run| && b in run[k].out
    ensures var w, w', e := run[k], After(run[k], itemSize, Release(b)), FreeStep(run[k].pool, itemSize, b).1;
      && e.result.None?
      && (Waiting(w) != [] ==>
            e.told == Some((Waiting(w)[0], b)) && w'.out == w.out && Waiting(w') == Waiting(w)[1..])
      && (Waiting(w) == [] ==> e.told.None? && w'.out == w.out - {b} && Waiting(w') == [])
  {
    RunInv(items, itemSize, run, k);
    ReleaseEffect(items, itemSize, run[k], b);
  }

  lemma ReleaseEffect(items: nat, itemSize: nat, w: World, b: nat)
    requires Inv(items, itemSize, w) && b in w.out
    ensures var w', e := After(w, itemSize, Release(b)), FreeStep(w.pool, itemSize, b).1;
      && e.result.None?
      && (Waiting(w) != [] ==>
            e.told == Some((Waiting(w)[0], b)) && w'.out == w.out && Waiting(w') == Waiting(w)[1..])
      && (Waiting(w) == [] ==> e.told.None? && w'.out == w.out - {b} && Waiting(w') == [])
  {
    var q := w.pool.queue;
    if w.pool.empty {
      assert Waiting(w) == Clients(q);
      if q != [] {
        assert q[0] in q && Clients(q)[0] == q[0].client;
        assert w.out - {b} + {b} == w.out;
      }
    }
  }
}
