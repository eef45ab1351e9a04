/** Reserving aliases on a shared bus: AliasAllocator against the AliasConflictHandler
    of every other node (section 6.2.1 and 6.2.5 of the OpenLCB CAN Frame Transfer
    Standard). A network is a sequence of nodes that move one at a time; what a node
    sends lands in the inboxes of all the others and may wait there for any time and
    be overtaken. Nodes pick aliases, evict mappings, and answer when they like. */
module AliasProtocol {

  /** `from` and `answering` record the node a check came from and the node whose
      check is being answered; -1 for traffic of devices outside the model. */
  datatype Kind =
    | CheckId(from: int, number: nat)
    | ReserveId(answering: int)
    | MapReset
    | StreamData(dst: nat)
    | Message
    | HighPriority

  datatype Frame = Frame(alias: nat, kind: Kind)

  /** States of the allocator flow: nothing pending, `next` is the number of the next
      check frame, waiting for the 200 ms timer, about to send the reservation. */
  datatype Phase = Idle | Checking(next: nat) | Sleeping | Reserving

  datatype Allocator = Allocator(phase: Phase, alias: nat, conflict: bool)

  /** State of the conflict handler flow. */
  datatype Defender = Listening | Answering(alias: nat, to: int) | Releasing(alias: nat)

  /** `local` maps the aliases in the local alias cache to their node IDs; `queue`
      holds the frames handed to the conflict handler but not yet looked at. */
  datatype Node = Node(alloc: Allocator, local: map<nat, nat>, defender: Defender,
                       inbox: multiset<Frame>, queue: multiset<Frame>)

  const RESERVED_ALIAS_NODE_BITS: nat := 0xF000

  function ReservedId(alias: nat): nat { RESERVED_ALIAS_NODE_BITS + alias }

  predicate IsReservedId(id: nat) { RESERVED_ALIAS_NODE_BITS <= id < RESERVED_ALIAS_NODE_BITS + 0x1000 }

  datatype Event =
    | Start(alias: nat)
    | SendCheck
    | TimerExpired
    | SendReservation
    | Dispatch(f: Frame)
    | Defend(f: Frame)
    | SendAnswer
    | GiveUp
    | Forget(alias: nat)
    | Assign(alias: nat, id: nat)
    | Talk(f: Frame)
    | Receive(f: Frame)

  // ---------------------------------------------------------------------
  // The allocator flow of one node; AliasAllocator implements these.

  /** handle_alias_conflict: burn the alias and start over with another one. */
  const Restarted := Allocator(Idle, 0, false)

  function OnStart(alias: nat): Allocator { Allocator(Checking(7), alias, false) }

  function OnSendCheck(a: Allocator, me: int): (Allocator, seq<Frame>)
    requires a.phase.Checking? && a.phase.next >= 4
  {
    if a.conflict then (Restarted, [])
    else
      var n := a.phase.next;
      (a.(phase := if n == 4 then Sleeping else Checking(n - 1)), [Frame(a.alias, CheckId(me, n))])
  }

  function OnTimer(a: Allocator): Allocator {
    if a.conflict then Restarted else a.(phase := Reserving)
  }

  /** Sends the reservation unless a conflict came in; tells whether the alias is now ours. */
  function OnSendReservation(a: Allocator): (Allocator, seq<Frame>, bool) {
    if a.conflict then (Restarted, [], false)
    else (Restarted, [Frame(a.alias, ReserveId(-1))], true)
  }

  /** The handler registered for all frames that carry the alias under test. */
  function OnConflictFrame(a: Allocator, f: Frame): Allocator {
    if a.phase != Idle && f.alias == a.alias then a.(conflict := true) else a
  }

  // ---------------------------------------------------------------------
  // The conflict handler flow of one node

  function OnDefend(x: Node, f: Frame): Defender {
    if f.kind.HighPriority? || f.alias == 0 || f.alias !in x.local then Listening
    else if f.kind.StreamData? && f.kind.dst != 0 && f.kind.dst in x.local then Listening
    else if f.kind.CheckId? then Answering(f.alias, f.kind.from)
    else Releasing(f.alias)
  }

  // ---------------------------------------------------------------------
  // Steps of one node: its new state and what it broadcasts

  predicate Enabled(x: Node, e: Event) {
    match e
    case Start(alias) => x.alloc.phase == Idle && alias != 0 && alias !in x.local
    case SendCheck => x.alloc.phase.Checking? && x.alloc.phase.next >= 4
    case TimerExpired => x.alloc.phase == Sleeping
    case SendReservation => x.alloc.phase == Reserving
    case Dispatch(f) => f in x.inbox
    case Defend(f) => f in x.queue && x.defender == Listening
    case SendAnswer => x.defender.Answering?
    case GiveUp => x.defender.Releasing?
    case Forget(alias) => true
    case Assign(alias, id) => alias in x.local
    case Talk(f) => f.alias in x.local && !f.kind.CheckId? && !f.kind.ReserveId?
    case Receive(f) => (f.kind.CheckId? ==> f.kind.from == -1) && (f.kind.ReserveId? ==> f.kind.answering == -1)
  }

  function Fire(me: int, x: Node, e: Event): (Node, seq<Frame>)
    requires Enabled(x, e)
  {
    match e
    case Start(alias) => (x.(alloc := OnStart(alias)), [])
    case SendCheck =>
      var (a, out) := OnSendCheck(x.alloc, me);
      (x.(alloc := a), out)
    case TimerExpired => (x.(alloc := OnTimer(x.alloc)), [])
    case SendReservation =>
      var (a, out, ours) := OnSendReservation(x.alloc);
      var alias := x.alloc.alias;
      (x.(alloc := a, local := if ours then x.local[alias := ReservedId(alias)] else x.local), out)
    case Dispatch(f) =>
      (x.(alloc := OnConflictFrame(x.alloc, f), inbox := x.inbox - multiset{f}, queue := x.queue + multiset{f}), [])
    case Defend(f) =>
      (x.(queue := x.queue - multiset{f}, defender := OnDefend(x, f)), [])
    case SendAnswer =>
      (x.(defender := Listening), [Frame(x.defender.alias, ReserveId(x.defender.to))])
    case GiveUp =>
      var alias := x.defender.alias;
      var y := x.(defender := Listening, local := x.local - {alias});
      if alias in x.local && !IsReservedId(x.local[alias]) then (y, [Frame(alias, MapReset)]) else (y, [])
    case Forget(alias) => (x.(local := x.local - {alias}), [])
    case Assign(alias, id) => (x.(local := x.local[alias := id]), [])
    case Talk(f) => (x, [f])
    case Receive(f) => (x.(inbox := x.inbox + multiset{f}), [])
  }

  // ---------------------------------------------------------------------
  // The network

  type Network = seq<Node>

  const FreshNode := Node(Restarted, map[], Listening, multiset{}, multiset{})

  ghost predicate Init(net: Network) { forall i | 0 <= i < |net| :: net[i] == FreshNode }

  function Hear(x: Node, out: seq<Frame>): Node { x.(inbox := x.inbox + multiset(out)) }

  function After(net: Network, n: nat, e: Event): (r: Network)
    requires n < |net| && Enabled(net[n], e)
    ensures |r| == |net|
  {
    var (x, out) := Fire(n, net[n], e);
    seq(|net|, i requires 0 <= i < |net| => if i == n then x else Hear(net[i], out))
  }

  /** A check for `alias` from node `i` is among the frames. */
  ghost predicate CheckIn(frames: multiset<Frame>, i: int, alias: nat) {
    exists number :: Frame(alias, CheckId(i, number)) in frames
  }

  /** Node `y` is done with the checks of node `i` for `alias`, and `x` (node `i`) with the answers. */
  ghost predicate SettledWith(i: int, x: Node, y: Node, alias: nat) {
    && !CheckIn(y.inbox, i, alias) && !CheckIn(y.queue, i, alias)
    && y.defender != Answering(alias, i)
    && Frame(alias, ReserveId(i)) !in x.inbox
  }

  /** What the 200 ms wait is for. */
  ghost predicate Settled(net: Network, n: nat)
    requires n < |net|
  {
    forall j | 0 <= j < |net| && j != n :: SettledWith(n, net[n], net[j], net[n].alloc.alias)
  }

  /** A timer that nobody cut short expires only when the answers are in. */
  ghost predicate InTime(net: Network, n: nat, e: Event)
    requires n < |net|
  {
    e == TimerExpired && !net[n].alloc.conflict ==> Settled(net, n)
  }

  ghost predicate Next(net: Network, net': Network) {
    exists n: nat, e ::
      n < |net| && Enabled(net[n], e) && InTime(net, n, e) && net' == After(net, n, e)
  }

  ghost predicate IsRun(run: seq<Network>) {
    && run != [] && Init(run[0])
    && forall k | 0 <= k < |run| - 1 :: Next(run[k], run[k + 1])
  }

  ghost predicate Exclusive(net: Network) {
    forall i, j, alias | 0 <= i < j < |net| && alias in net[i].local :: alias !in net[j].local
  }

  // ---------------------------------------------------------------------
  // The invariant, one ordered pair of nodes at a time

  /** The alias is the node's, or will be as soon as it sends the reservation. */
  predicate Holds(x: Node, alias: nat) {
    alias in x.local || (x.alloc.phase == Reserving && x.alloc.alias == alias && !x.alloc.conflict)
  }

  /** The node is checking the alias and has not seen a conflict. */
  predicate Tests(x: Node, alias: nat) {
    (x.alloc.phase.Checking? || x.alloc.phase == Sleeping) && x.alloc.alias == alias && !x.alloc.conflict
  }

  /** Node `y` has yet to see a check of node `i`. */
  ghost predicate Unseen(i: int, x: Node, y: Node, alias: nat) {
    x.alloc.phase.Checking? || CheckIn(y.inbox, i, alias)
  }

  /** Node `i` will hear that node `y` has the alias. */
  ghost predicate WillHear(i: int, x: Node, y: Node, alias: nat) {
    || Unseen(i, x, y, alias)
    || CheckIn(y.queue, i, alias)
    || y.defender == Answering(alias, i)
    || Frame(alias, ReserveId(i)) in x.inbox
  }

  ghost predicate PairOk(i: int, x: Node, j: int, y: Node, alias: nat) {
    && !(Holds(x, alias) && Holds(y, alias))
    && (Tests(x, alias) && alias in y.local ==> WillHear(i, x, y, alias))
    && (Tests(x, alias) && Holds(y, alias) && alias !in y.local ==> Unseen(i, x, y, alias))
    && (Tests(x, alias) && Tests(y, alias) ==> Unseen(i, x, y, alias) || Unseen(j, y, x, alias))
  }

  /** A node never checks an alias it already has. */
  predicate LocalOk(x: Node) {
    && 0 !in x.local
    && (x.alloc.phase == Idle || (x.alloc.alias != 0 && x.alloc.alias !in x.local))
    && (x.alloc.phase.Checking? ==> x.alloc.phase.next >= 4)
  }

  ghost predicate Inv(net: Network) {
    && (forall i | 0 <= i < |net| :: LocalOk(net[i]))
    && forall i, j, alias | 0 <= i < |net| && 0 <= j < |net| && i != j :: PairOk(i, net[i], j, net[j], alias)
  }

  lemma InitInv(net: Network)
    requires Init(net)
    ensures Inv(net)
  {}

  /** More frames in the inboxes break nothing. */
  lemma HearKeeps(i: int, x: Node, j: int, y: Node, alias: nat, out: seq<Frame>)
    requires PairOk(i, x, j, y, alias)
    ensures PairOk(i, Hear(x, out), j, Hear(y, out), alias)
  {
    HearKeepsCheck(x, out, j, alias);
    HearKeepsCheck(y, out, i, alias);
  }

  lemma HearKeepsCheck(x: Node, out: seq<Frame>, i: int, alias: nat)
    ensures CheckIn(x.inbox, i, alias) ==> CheckIn(Hear(x, out).inbox, i, alias)
  {
    if CheckIn(x.inbox, i, alias) {
      var number :| Frame(alias, CheckId(i, number)) in x.inbox;
      assert Frame(alias, CheckId(i, number)) in Hear(x, out).inbox;
    }
  }

  lemma CheckInLess(frames: multiset<Frame>, f: Frame, i: int, alias: nat)
    requires CheckIn(frames, i, alias)
    ensures CheckIn(frames - multiset{f}, i, alias) || (f.alias == alias && f.kind.CheckId? && f.kind.from == i)
  {
    var number :| Frame(alias, CheckId(i, number)) in frames;
    if f != Frame(alias, CheckId(i, number)) {
      assert Frame(alias, CheckId(i, number)) in frames - multiset{f};
    }
  }

  lemma CheckInMore(frames: multiset<Frame>, f: Frame, i: int, alias: nat)
    ensures CheckIn(frames, i, alias) ==> CheckIn(frames + multiset{f}, i, alias)
    ensures f.alias == alias && f.kind.CheckId? && f.kind.from == i ==> CheckIn(frames + multiset{f}, i, alias)
  {
    if CheckIn(frames, i, alias) {
      var number :| Frame(alias, CheckId(i, number)) in frames;
      assert Frame(alias, CheckId(i, number)) in frames + multiset{f};
    }
    if f.alias == alias && f.kind.CheckId? && f.kind.from == i {
      assert Frame(alias, CheckId(i, f.kind.number)) in frames + multiset{f};
    }
  }

  ghost predicate StepReady(n: int, x: Node, j: int, y: Node, e: Event, alias: nat) {
    && n != j && Enabled(x, e) && LocalOk(x)
    && PairOk(n, x, j, y, alias) && PairOk(j, y, n, x, alias)
    && (e == TimerExpired && !x.alloc.conflict && x.alloc.alias == alias ==> SettledWith(n, x, y, alias))
  }

  ghost predicate StepKeeps(n: int, x: Node, j: int, y: Node, e: Event, alias: nat)
    requires Enabled(x, e)
  {
    var (x', out) := Fire(n, x, e);
    PairOk(n, x', j, Hear(y, out), alias) && PairOk(j, Hear(y, out), n, x', alias)
  }

  lemma StepSilent(n: int, x: Node, j: int, y: Node, e: Event, alias: nat)
    requires StepReady(n, x, j, y, e, alias) && (e.Start? || e.TimerExpired? || e.Forget? || e.Assign?)
    ensures StepKeeps(n, x, j, y, e, alias)
  {
    assert Hear(y, []) == y;
    hide CheckIn;
  }

  lemma StepSendCheck(n: int, x: Node, j: int, y: Node, e: Event, alias: nat)
    requires StepReady(n, x, j, y, e, alias) && (e.SendCheck?)
    ensures StepKeeps(n, x, j, y, e, alias)
  {
    hide CheckIn;
    var (x', out) := Fire(n, x, e);
    var y' := Hear(y, out);
    if !x.alloc.conflict {
      assert y'.inbox == y.inbox + multiset{out[0]};
      CheckInMore(y.inbox, out[0], n, x.alloc.alias);
    }
    HearKeepsCheck(y, out, n, alias);
  }

  lemma StepDispatch(n: int, x: Node, j: int, y: Node, e: Event, alias: nat)
    requires StepReady(n, x, j, y, e, alias) && (e.Dispatch?)
    ensures StepKeeps(n, x, j, y, e, alias)
  {
    hide SettledWith, LocalOk, CheckIn;
    assert Hear(y, []) == y;
    CheckInMore(x.queue, e.f, j, alias);
    if CheckIn(x.inbox, j, alias) { CheckInLess(x.inbox, e.f, j, alias); }
  }

  lemma StepDefend(n: int, x: Node, j: int, y: Node, e: Event, alias: nat)
    requires StepReady(n, x, j, y, e, alias) && (e.Defend?)
    ensures StepKeeps(n, x, j, y, e, alias)
  {
    assert Hear(y, []) == y;
    var x' := Fire(n, x, e).0;
    assert Fire(n, x, e) == (x', []);
    if CheckIn(x.queue, j, alias) && alias in x.local {
      CheckInLess(x.queue, e.f, j, alias);
      assert CheckIn(x'.queue, j, alias) || x'.defender == Answering(alias, j);
    }
    assert WillHear(j, y, x, alias) && alias in x.local ==> WillHear(j, y, x', alias);
    hide CheckIn, WillHear, SettledWith, LocalOk, OnDefend, Fire;
  }

  lemma StepSendAnswer(n: int, x: Node, j: int, y: Node, e: Event, alias: nat)
    requires StepReady(n, x, j, y, e, alias) && (e.SendAnswer?)
    ensures StepKeeps(n, x, j, y, e, alias)
  {
    var (x', out) := Fire(n, x, e);
    assert out[0] in Hear(y, out).inbox;
    HearKeepsCheck(y, out, n, alias);
    hide CheckIn;
  }

  lemma StepReceive(n: int, x: Node, j: int, y: Node, e: Event, alias: nat)
    requires StepReady(n, x, j, y, e, alias) && (e.Receive?)
    ensures StepKeeps(n, x, j, y, e, alias)
  {
    assert Hear(y, []) == y;
    CheckInMore(x.inbox, e.f, j, alias);
    hide CheckIn;
  }

  lemma StepSendReservation(n: int, x: Node, j: int, y: Node, e: Event, alias: nat)
    requires StepReady(n, x, j, y, e, alias) && (e.SendReservation?)
    ensures StepKeeps(n, x, j, y, e, alias)
  {
    var (x', out) := Fire(n, x, e);
    HearKeepsCheck(y, out, n, alias);
    hide CheckIn;
  }

  lemma StepRelease(n: int, x: Node, j: int, y: Node, e: Event, alias: nat)
    requires StepReady(n, x, j, y, e, alias) && (e.GiveUp? || e.Talk?)
    ensures StepKeeps(n, x, j, y, e, alias)
  {
    var (x', out) := Fire(n, x, e);
    HearKeepsCheck(y, out, n, alias);
    hide CheckIn;
  }

  /** One step of node `n` keeps the invariant between it and node `j`. */
  lemma StepPair(n: int, x: Node, j: int, y: Node, e: Event, alias: nat)
    requires StepReady(n, x, j, y, e, alias)
    ensures StepKeeps(n, x, j, y, e, alias)
  {
    hide Fire, PairOk, Enabled;
    match e
    case SendCheck => StepSendCheck(n, x, j, y, e, alias);
    case Dispatch(_) => StepDispatch(n, x, j, y, e, alias);
    case Defend(_) => StepDefend(n, x, j, y, e, alias);
    case SendAnswer => StepSendAnswer(n, x, j, y, e, alias);
    case Receive(_) => StepReceive(n, x, j, y, e, alias);
    case SendReservation => StepSendReservation(n, x, j, y, e, alias);
    case GiveUp => StepRelease(n, x, j, y, e, alias);
    case Talk(_) => StepRelease(n, x, j, y, e, alias);
    case _ => StepSilent(n, x, j, y, e, alias);
  }

  lemma StepLocal(n: int, x: Node, e: Event)
    requires Enabled(x, e) && LocalOk(x)
    ensures LocalOk(Fire(n, x, e).0)
  {}

  lemma StepInv(net: Network, n: nat, e: Event)
    requires n < |net| && Inv(net) && Enabled(net[n], e) && InTime(net, n, e)
    ensures Inv(After(net, n, e))
  {
    var r := After(net, n, e);
    var (x, out) := Fire(n, net[n], e);
    forall i | 0 <= i < |r| ensures LocalOk(r[i]) {
      assert LocalOk(net[i]);
      StepLocal(n, net[n], e);
      hide Fire;
    }
    forall i, j, alias | 0 <= i < |r| && 0 <= j < |r| && i != j ensures PairOk(i, r[i], j, r[j], alias) {
      hide Fire, PairOk, Enabled, LocalOk;
      assert LocalOk(net[n]);
      assert PairOk(i, net[i], j, net[j], alias) && PairOk(j, net[j], i, net[i], alias);
      if i == n {
        StepPair(n, net[n], j, net[j], e, alias);
      } else if j == n {
        StepPair(n, net[n], i, net[i], e, alias);
      } else {
        HearKeeps(i, net[i], j, net[j], alias, out);
      }
    }
  }

  lemma {:induction false} RunInv(run: seq<Network>, k: nat)
    requires IsRun(run) && k < |run|
    ensures Inv(run[k])
  {
    if k == 0 {
      InitInv(run[0]);
    } else {
      RunInv(run, k - 1);
      assert Next(run[k - 1], run[k - 1 + 1]);
      var n: nat, e :| n < |run[k - 1]| && Enabled(run[k - 1][n], e) && InTime(run[k - 1], n, e)
        && run[k] == After(run[k - 1], n, e);
      StepInv(run[k - 1], n, e);
    }
  }

  /** In every run no two nodes ever have the same alias in their local caches. */
  lemma MutualExclusion(run: seq<Network>, k: nat)
    requires IsRun(run) && k < |run|
    ensures Exclusive(run[k])
  {
    RunInv(run, k);
    var net := run[k];
    forall i, j, alias | 0 <= i < j < |net| && alias in net[i].local ensures alias !in net[j].local {
      assert PairOk(i, net[i], j, net[j], alias);
      assert Holds(net[i], alias);
    }
  }

  // ---------------------------------------------------------------------
  // Without the wait the protocol does not exclude anything

  ghost predicate UntimedNext(net: Network, net': Network) {
    exists n: nat, e :: n < |net| && Enabled(net[n], e) && net' == After(net, n, e)
  }

  ghost predicate IsUntimedRun(run: seq<Network>) {
    run != [] && forall k | 0 <= k < |run| - 1 :: UntimedNext(run[k], run[k + 1])
  }

  /** A node whose timer does not wait can take any alias it does not have yet, whoever else has it. */
  lemma TakeAlias(net: Network, n: nat, alias: nat) returns (run: seq<Network>)
    requires n < |net| && net[n].alloc == Restarted && alias != 0 && alias !in net[n].local
    ensures IsUntimedRun(run) && run[0] == net
    ensures var last := run[|run| - 1];
      && |last| == |net| && alias in last[n].local && last[n].alloc == Restarted
      && forall i | 0 <= i < |net| && i != n :: last[i].local == net[i].local && last[i].alloc == net[i].alloc
  {
    run := [net];
    run := Extend(run, n, Start(alias));
    run := Extend(run, n, SendCheck);
    run := Extend(run, n, SendCheck);
    run := Extend(run, n, SendCheck);
    run := Extend(run, n, SendCheck);
    run := Extend(run, n, TimerExpired);
    run := Extend(run, n, SendReservation);
  }

  lemma Extend(run: seq<Network>, n: nat, e: Event) returns (run': seq<Network>)
    requires IsUntimedRun(run) && n < |run[|run| - 1]| && Enabled(run[|run| - 1][n], e)
    ensures IsUntimedRun(run') && run'[0] == run[0] && |run'| == |run| + 1
    ensures var net, net' := run[|run| - 1], run'[|run'| - 1];
      && |net'| == |net| && net'[n] == Fire(n, net[n], e).0
      && forall i | 0 <= i < |net| && i != n :: net'[i].local == net[i].local && net'[i].alloc == net[i].alloc
  {
    var net := run[|run| - 1];
    run' := run + [After(net, n, e)];
    hide Enabled, Fire;
    forall k | 0 <= k < |run'| - 1 ensures UntimedNext(run'[k], run'[k + 1]) {
      if k < |run| - 1 {
        assert run'[k] == run[k] && run'[k + 1] == run[k + 1] && UntimedNext(run[k], run[k + 1]);
      } else {
        assert run'[k] == net && run'[k + 1] == After(net, n, e);
      }
    }
  }

  /** So the assumption on the timer cannot be dropped. */
  lemma WaitIsNeeded(alias: nat) returns (run: seq<Network>)
    requires alias != 0
    ensures IsUntimedRun(run) && Init(run[0]) && !Exclusive(run[|run| - 1])
  {
    var net := [FreshNode, FreshNode];
    var first := TakeAlias(net, 0, alias);
    var mid := first[|first| - 1];
    var second := TakeAlias(mid, 1, alias);
    run := first + second[1..];
    forall k | 0 <= k < |run| - 1 ensures UntimedNext(run[k], run[k + 1]) {
      if k < |first| - 1 {
        assert UntimedNext(first[k], first[k + 1]);
      } else {
        var m := k - (|first| - 1);
        assert run[k] == second[m] && run[k + 1] == second[m + 1] && UntimedNext(second[m], second[m + 1]);
      }
    }
    var last := second[|second| - 1];
    assert last == run[|run| - 1];
    assert alias in last[0].local && alias in last[1].local;
  }
}
