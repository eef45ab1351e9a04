/** What one node does over a whole run, whatever the others do and whether or not the
    timer waits: what it sends before it reserves an alias, when it restarts, and when it
    gives an alias away. */
module AliasTrace {
  import opened AliasProtocol

  /** A step: which node, and what it does. */
  datatype Move = Move(node: nat, event: Event)

  /** The moves of a run, and the states before, between and after them. */
  ghost predicate IsTrace(nets: seq<Network>, moves: seq<Move>) {
    && |nets| == |moves| + 1 && Init(nets[0])
    && forall k: nat | k < |moves| :: Moved(nets[k], moves[k], nets[k + 1])
  }

  ghost predicate Moved(net: Network, m: Move, net': Network) {
    m.node < |net| && Enabled(net[m.node], m.event) && net' == After(net, m.node, m.event)
  }

  /** What goes out on the bus with move `k`. */
  ghost function Sent(nets: seq<Network>, moves: seq<Move>, k: nat): seq<Frame>
    requires IsTrace(nets, moves) && k < |moves|
  {
    assert Moved(nets[k], moves[k], nets[k + 1]);
    Fire(moves[k].node, nets[k][moves[k].node], moves[k].event).1
  }

  /** The check frames among some frames. */
  function ChecksIn(frames: seq<Frame>): seq<Frame> {
    if frames == [] then []
    else (if frames[0].kind.CheckId? then [frames[0]] else []) + ChecksIn(frames[1..])
  }

  /** The check frames that node `n` sends from move `i` on, before move `k`. */
  ghost function ChecksSent(nets: seq<Network>, moves: seq<Move>, n: nat, i: nat, k: nat): seq<Frame>
    requires IsTrace(nets, moves) && i <= k <= |moves|
    decreases k
  {
    if i == k then []
    else
      ChecksSent(nets, moves, n, i, k - 1)
      + if moves[k - 1].node == n then ChecksIn(Sent(nets, moves, k - 1)) else []
  }

  /** Move `i` starts the test of `alias` by node `n`, and none of its moves up to `k` starts another. */
  ghost predicate StartedAt(moves: seq<Move>, n: nat, alias: nat, i: nat, k: nat) {
    && i < k <= |moves| && moves[i] == Move(n, Start(alias))
    && forall m | i < m < k && moves[m].node == n :: !moves[m].event.Start?
  }

  /** Between moves `i` and `k` node `n` takes up a frame that carries the alias. */
  ghost predicate Disturbed(moves: seq<Move>, n: nat, alias: nat, i: nat, k: nat)
    requires k <= |moves|
  {
    exists m: nat :: i < m < k && TakesUp(moves[m], n, alias)
  }

  predicate TakesUp(m: Move, n: nat, alias: nat) {
    m.node == n && m.event.Dispatch? && m.event.f.alias == alias
  }

  /** The four check frames. */
  function Checks(n: nat, alias: nat): (c: seq<Frame>)
    ensures |c| == 4
  {
    [Frame(alias, CheckId(n, 7)), Frame(alias, CheckId(n, 6)), Frame(alias, CheckId(n, 5)), Frame(alias, CheckId(n, 4))]
  }

  /** How many of them are out. */
  predicate Progress(a: Allocator, sent: nat) {
    match a.phase
    case Idle => false
    case Checking(next) => sent < 4 && next == 7 - sent
    case _ => sent == 4
  }

  /** Every run of the protocol has its moves. */
  lemma {:induction false} TraceOfRun(run: seq<Network>) returns (moves: seq<Move>)
    requires IsRun(run)
    ensures IsTrace(run, moves)
    decreases |run|
  {
    hide Init, Enabled, InTime, After;
    if |run| == 1 {
      moves := [];
    } else {
      var front := run[..|run| - 1];
      assert forall k | 0 <= k < |front| - 1 :: Next(front[k], front[k + 1]) by {
        forall k | 0 <= k < |front| - 1 ensures Next(front[k], front[k + 1]) { assert Next(run[k], run[k + 1]); }
      }
      moves := TraceOfRun(front);
      var net := run[|run| - 2];
      assert Next(net, run[|run| - 2 + 1]);
      var n: nat, e :| n < |net| && Enabled(net[n], e) && InTime(net, n, e) && run[|run| - 1] == After(net, n, e);
      moves := moves + [Move(n, e)];
      assert Moved(net, Move(n, e), run[|run| - 1]);
      forall k: nat | k < |moves| ensures Moved(run[k], moves[k], run[k + 1]) {
        if k < |moves| - 1 { assert Moved(front[k], moves[k], front[k + 1]); }
      }
    }
  }

  lemma MoveAt(nets: seq<Network>, moves: seq<Move>, n: nat, k: nat)
    requires IsTrace(nets, moves) && k < |moves| && n < |nets[k]|
    ensures |nets[k + 1]| == |nets[k]| && moves[k].node < |nets[k]|
    ensures moves[k].node != n ==> nets[k + 1][n] == nets[k][n].(inbox := nets[k + 1][n].inbox)
    ensures moves[k].node == n ==>
      && Enabled(nets[k][n], moves[k].event)
      && (nets[k + 1][n], Sent(nets, moves, k)) == Fire(n, nets[k][n], moves[k].event)
  {
    hide Fire, Enabled, Init;
    assert Moved(nets[k], moves[k], nets[k + 1]);
  }

  lemma {:induction false} SameNodes(nets: seq<Network>, moves: seq<Move>, k: nat)
    requires IsTrace(nets, moves) && k < |nets|
    ensures |nets[k]| == |nets[0]|
  {
    if k > 0 {
      SameNodes(nets, moves, k - 1);
      assert Moved(nets[k - 1], moves[k - 1], nets[k - 1 + 1]);
    }
  }

  lemma TraceStart(nets: seq<Network>, moves: seq<Move>)
    requires IsTrace(nets, moves)
    ensures |nets| == |moves| + 1 && forall i | 0 <= i < |nets[0]| :: nets[0][i].alloc.phase == Idle
  {}

  lemma ChecksOf(out: seq<Frame>)
    ensures out == [] ==> ChecksIn(out) == []
    ensures |out| == 1 ==> ChecksIn(out) == if out[0].kind.CheckId? then out else []
  {
    if |out| == 1 {
      assert out[1..] == [] && out == [out[0]];
    }
  }

  /** One move of a node that tests an alias afterwards. */
  lemma TestStep(n: nat, x: Node, e: Event, sent: nat)
    requires Enabled(x, e) && Fire(n, x, e).0.alloc.phase != Idle
    ensures var (y, out) := Fire(n, x, e);
      && (e.Start? ==> y.alloc.alias == e.alias && !y.alloc.conflict && Progress(y.alloc, 0))
      && (!e.Start? ==>
            && x.alloc.phase != Idle && y.alloc.alias == x.alloc.alias
            && (y.alloc.conflict <==> x.alloc.conflict || (e.Dispatch? && e.f.alias == x.alloc.alias))
            && (Progress(x.alloc, sent) && e.SendCheck? ==>
                  sent < 4 && Progress(y.alloc, sent + 1) && ChecksIn(out) == [Checks(n, x.alloc.alias)[sent]])
            && (Progress(x.alloc, sent) && !e.SendCheck? ==> Progress(y.alloc, sent) && ChecksIn(out) == []))
  {
    ChecksOf(Fire(n, x, e).1);
  }

  /** One move further. */
  lemma OneMore(nets: seq<Network>, moves: seq<Move>, n: nat, alias: nat, i: nat, k: nat)
    requires IsTrace(nets, moves) && 0 < k <= |moves| && i < k
    ensures moves[k - 1] == Move(n, Start(alias)) && i == k - 1 ==>
      StartedAt(moves, n, alias, i, k) && !Disturbed(moves, n, alias, i, k) && ChecksSent(nets, moves, n, k, k) == []
    ensures i < k - 1 ==>
      && StartedAt(moves, n, alias, i, k)
         == (StartedAt(moves, n, alias, i, k - 1) && !(moves[k - 1].node == n && moves[k - 1].event.Start?))
      && (Disturbed(moves, n, alias, i, k) <==> Disturbed(moves, n, alias, i, k - 1) || TakesUp(moves[k - 1], n, alias))
      && ChecksSent(nets, moves, n, i + 1, k)
         == ChecksSent(nets, moves, n, i + 1, k - 1)
            + if moves[k - 1].node == n then ChecksIn(Sent(nets, moves, k - 1)) else []
  {
    hide IsTrace, TakesUp, Sent, ChecksIn;
    if i < k - 1 && Disturbed(moves, n, alias, i, k - 1) {
      var m: nat :| i < m < k - 1 && TakesUp(moves[m], n, alias);
      assert i < m < k;
    }
  }

  lemma OneCheckMore(n: nat, alias: nat, sent: nat)
    requires sent < 4
    ensures Checks(n, alias)[..sent] + [Checks(n, alias)[sent]] == Checks(n, alias)[..sent + 1]
  {}

  lemma BeforeNow(moves: seq<Move>, n: nat, alias: nat, i: nat, k: nat)
    requires StartedAt(moves, n, alias, i, k)
    ensures i < k
  {}

  lemma TakesUpMeaning(m: Move, n: nat, alias: nat)
    ensures TakesUp(m, n, alias) <==> m.node == n && m.event.Dispatch? && m.event.f.alias == alias
  {}

  /** A node that tests an alias: since it started, it has sent the first of the four
      checks and no others, and it knows of a conflict if and only if it has taken up a
      frame with the alias. */
  lemma {:induction false} TestHistory(nets: seq<Network>, moves: seq<Move>, n: nat, k: nat) returns (i: nat, sent: nat)
    requires IsTrace(nets, moves) && k < |nets| && n < |nets[k]| && nets[k][n].alloc.phase != Idle
    ensures var a := nets[k][n].alloc;
      && StartedAt(moves, n, a.alias, i, k) && sent <= 4 && Progress(a, sent)
      && ChecksSent(nets, moves, n, i + 1, k) == Checks(n, a.alias)[..sent]
      && (a.conflict <==> Disturbed(moves, n, a.alias, i, k))
    decreases k
  {
    hide *;
    TraceStart(nets, moves);
    SameNodes(nets, moves, k);
    assert k > 0;
    SameNodes(nets, moves, k - 1);
    MoveAt(nets, moves, n, k - 1);
    var m, alias := moves[k - 1], nets[k][n].alloc.alias;
    if m.node == n && m.event.Start? {
      i, sent := k - 1, 0;
      TestStep(n, nets[k - 1][n], m.event, 0);
      OneMore(nets, moves, n, alias, i, k);
    } else {
      if m.node == n { TestStep(n, nets[k - 1][n], m.event, 0); }
      i, sent := TestHistory(nets, moves, n, k - 1);
      BeforeNow(moves, n, alias, i, k - 1);
      OneMore(nets, moves, n, alias, i, k);
      TakesUpMeaning(m, n, alias);
      if m.node == n {
        TestStep(n, nets[k - 1][n], m.event, sent);
        if m.event.SendCheck? {
          OneCheckMore(n, alias, sent);
          sent := sent + 1;
        }
      }
    }
  }

  /** Whenever a node comes to its reservation, it has sent exactly the checks 7, 6, 5
      and 4 for the alias since it started; and it sends the reservation, and has the
      alias from then on, if and only if it has not met the alias in a frame meanwhile. */
  lemma FourChecks(nets: seq<Network>, moves: seq<Move>, n: nat, k: nat) returns (i: nat, alias: nat)
    requires IsTrace(nets, moves) && k < |moves| && moves[k] == Move(n, SendReservation)
    ensures i < k && StartedAt(moves, n, alias, i, k)
    ensures ChecksSent(nets, moves, n, i + 1, k)
      == [Frame(alias, CheckId(n, 7)), Frame(alias, CheckId(n, 6)), Frame(alias, CheckId(n, 5)), Frame(alias, CheckId(n, 4))]
    ensures Sent(nets, moves, k) == if Disturbed(moves, n, alias, i, k) then [] else [Frame(alias, ReserveId(-1))]
    ensures !Disturbed(moves, n, alias, i, k) ==> n < |nets[k + 1]| && alias in nets[k + 1][n].local
  {
    hide *;
    TraceStart(nets, moves);
    SameNodes(nets, moves, k);
    NodeOf(nets, moves, k);
    MoveAt(nets, moves, n, k);
    ReservationMove(n, nets[k][n]);
    var sent;
    i, sent := TestHistory(nets, moves, n, k);
    alias := nets[k][n].alloc.alias;
    AllFour(n, alias, nets[k][n].alloc, sent);
    BeforeNow(moves, n, alias, i, k);
  }

  lemma NodeOf(nets: seq<Network>, moves: seq<Move>, k: nat)
    requires IsTrace(nets, moves) && k < |moves|
    ensures moves[k].node < |nets[k]|
  {
    assert Moved(nets[k], moves[k], nets[k + 1]);
  }

  lemma ReservationMove(n: nat, x: Node)
    ensures Enabled(x, SendReservation) ==>
      var (y, out) := Fire(n, x, SendReservation);
      && x.alloc.phase == Reserving
      && out == (if x.alloc.conflict then [] else [Frame(x.alloc.alias, ReserveId(-1))])
      && (!x.alloc.conflict ==> x.alloc.alias in y.local)
  {}

  lemma AllFour(n: nat, alias: nat, a: Allocator, sent: nat)
    requires a.phase == Reserving && Progress(a, sent)
    ensures Checks(n, alias)[..sent]
      == [Frame(alias, CheckId(n, 7)), Frame(alias, CheckId(n, 6)), Frame(alias, CheckId(n, 5)), Frame(alias, CheckId(n, 4))]
  {}

  /** A node that has met the alias in a frame while it tests it sends no further check,
      and starts over; otherwise the checks go out one by one. */
  lemma NextCheck(nets: seq<Network>, moves: seq<Move>, n: nat, k: nat) returns (i: nat, alias: nat)
    requires IsTrace(nets, moves) && k < |moves| && moves[k] == Move(n, SendCheck)
    ensures i < k && StartedAt(moves, n, alias, i, k)
    ensures var done := |ChecksSent(nets, moves, n, i + 1, k)|;
      && done < 4
      && Sent(nets, moves, k) == if Disturbed(moves, n, alias, i, k) then [] else [Frame(alias, CheckId(n, 7 - done))]
    ensures n < |nets[k + 1]|
    ensures nets[k + 1][n].alloc.phase == Idle <==> Disturbed(moves, n, alias, i, k)
  {
    hide *;
    TraceStart(nets, moves);
    SameNodes(nets, moves, k);
    NodeOf(nets, moves, k);
    MoveAt(nets, moves, n, k);
    CheckMove(n, nets[k][n], 0);
    var sent;
    i, sent := TestHistory(nets, moves, n, k);
    CheckMove(n, nets[k][n], sent);
    alias := nets[k][n].alloc.alias;
    BeforeNow(moves, n, alias, i, k);
  }

  lemma CheckMove(n: nat, x: Node, sent: nat)
    ensures Enabled(x, SendCheck) ==>
      var (y, out) := Fire(n, x, SendCheck);
      && x.alloc.phase != Idle && (y.alloc.phase == Idle <==> x.alloc.conflict)
      && (Progress(x.alloc, sent) ==>
            && sent < 4
            && out == if x.alloc.conflict then [] else [Frame(x.alloc.alias, CheckId(n, 7 - sent))])
  {}

  /** A test that comes to an end has led to a reservation, or has met the alias in a frame. */
  lemma TestEnds(nets: seq<Network>, moves: seq<Move>, n: nat, k: nat) returns (i: nat, alias: nat)
    requires IsTrace(nets, moves) && k < |moves| && n < |nets[k]| == |nets[k + 1]|
    requires nets[k][n].alloc.phase != Idle && nets[k + 1][n].alloc.phase == Idle
    ensures i < k && StartedAt(moves, n, alias, i, k) && moves[k].node == n
    ensures (moves[k].event == SendReservation && Sent(nets, moves, k) == [Frame(alias, ReserveId(-1))])
      || Disturbed(moves, n, alias, i, k)
  {
    hide *;
    TraceStart(nets, moves);
    MoveAt(nets, moves, n, k);
    var sent;
    i, sent := TestHistory(nets, moves, n, k);
    alias := nets[k][n].alloc.alias;
    BeforeNow(moves, n, alias, i, k);
    if moves[k].node == n { EndMove(n, nets[k][n], moves[k].event); }
  }

  lemma EndMove(n: nat, x: Node, e: Event)
    requires Enabled(x, e) && x.alloc.phase != Idle
    ensures var (y, out) := Fire(n, x, e);
      y.alloc.phase == Idle ==> x.alloc.conflict || (e == SendReservation && out == [Frame(x.alloc.alias, ReserveId(-1))])
  {}

  // ---------------------------------------------------------------------
  // Aliases that come and go

  /** A node gets an alias by reserving it, and in no other way. */
  lemma OnlyReserved(n: nat, x: Node, e: Event, alias: nat)
    requires Enabled(x, e) && alias !in x.local
    ensures var (y, out) := Fire(n, x, e);
      alias in y.local <==> e == SendReservation && out == [Frame(alias, ReserveId(-1))]
  {}

  /** It loses one when its cache evicts it, or when it gives it up. */
  lemma OnlyLost(n: nat, x: Node, e: Event, alias: nat)
    requires Enabled(x, e) && alias in x.local
    ensures alias !in Fire(n, x, e).0.local <==> e == Forget(alias) || (e == GiveUp && x.defender == Releasing(alias))
  {}

  /** Traffic that a node must not see for an alias of its own: any, but checks, urgent
      frames, and stream data from one of its aliases to another. */
  predicate Foreign(x: Node, f: Frame) {
    && f.alias != 0 && f.alias in x.local
    && match f.kind
       case CheckId(_, _) => false
       case HighPriority => false
       case StreamData(dst) => dst == 0 || dst !in x.local
       case _ => true
  }

  /** What a node does about a frame it looks at, and what the bus hears of it: the check
      of another node is answered; foreign traffic costs it the alias, which it announces
      if the alias belongs to a node, and not only to the reserve. */
  lemma Defence(n: nat, x: Node, f: Frame, e: Event)
    requires Enabled(x, Defend(f))
    ensures var y := Fire(n, x, Defend(f)).0;
      && y.local == x.local
      && (y.defender == Releasing(f.alias) <==> Foreign(x, f))
      && (y.defender.Answering? <==> f.kind.CheckId? && f.alias != 0 && f.alias in x.local)
      && (Foreign(x, f) ==>
            && Enabled(y, GiveUp)
            && Fire(n, y, GiveUp).0.local == x.local - {f.alias}
            && Fire(n, y, GiveUp).1
               == if 0xF000 <= x.local[f.alias] < 0x10000 then [] else [Frame(f.alias, MapReset)])
      && (y.defender.Answering? ==>
            && Enabled(y, SendAnswer) && Fire(n, y, SendAnswer).0.local == x.local
            && Fire(n, y, SendAnswer).1 == [Frame(f.alias, ReserveId(f.kind.from))])
  {}

  /** In a run: an alias is given up only after a foreign frame with it was looked at, when
      it was in the local cache; and the mapping is announced as released if the alias is
      still there, and is a node's. */
  lemma GivenUp(nets: seq<Network>, moves: seq<Move>, n: nat, k: nat) returns (i: nat, f: Frame)
    requires IsTrace(nets, moves) && k < |moves| && moves[k] == Move(n, GiveUp)
    ensures i < k && moves[i] == Move(n, Defend(f)) && n < |nets[i]| == |nets[k]| && Foreign(nets[i][n], f)
    ensures Sent(nets, moves, k)
      == if f.alias in nets[k][n].local && !(0xF000 <= nets[k][n].local[f.alias] < 0x10000) then [Frame(f.alias, MapReset)] else []
  {
    hide *;
    TraceStart(nets, moves);
    SameNodes(nets, moves, k);
    NodeOf(nets, moves, k);
    MoveAt(nets, moves, n, k);
    ReleaseMove(n, nets[k][n]);
    i, f := ReleaseHistory(nets, moves, n, k);
    SameNodes(nets, moves, i);
  }

  lemma ReleaseMove(n: nat, x: Node)
    ensures Enabled(x, GiveUp) ==>
      var a := x.defender;
      && a.Releasing?
      && Fire(n, x, GiveUp).1
         == if a.alias in x.local && !(0xF000 <= x.local[a.alias] < 0x10000) then [Frame(a.alias, MapReset)] else []
  {}

  lemma {:induction false} ReleaseHistory(nets: seq<Network>, moves: seq<Move>, n: nat, k: nat) returns (i: nat, f: Frame)
    requires IsTrace(nets, moves) && k < |nets| && n < |nets[k]| && nets[k][n].defender.Releasing?
    ensures i < k && moves[i] == Move(n, Defend(f)) && n < |nets[i]| && Foreign(nets[i][n], f)
    ensures nets[k][n].defender == Releasing(f.alias)
    decreases k
  {
    hide *;
    SameNodes(nets, moves, k);
    TraceDefenders(nets, moves);
    assert k > 0;
    SameNodes(nets, moves, k - 1);
    MoveAt(nets, moves, n, k - 1);
    var m, x := moves[k - 1], nets[k - 1][n];
    if m.node == n { DefenderMove(n, x, m.event); }
    if m.node == n && m.event.Defend? {
      i, f := k - 1, m.event.f;
    } else {
      i, f := ReleaseHistory(nets, moves, n, k - 1);
    }
  }

  lemma TraceDefenders(nets: seq<Network>, moves: seq<Move>)
    requires IsTrace(nets, moves)
    ensures |nets| == |moves| + 1 && forall i | 0 <= i < |nets[0]| :: nets[0][i].defender == Listening
  {}

  lemma DefenderMove(n: nat, x: Node, e: Event)
    requires Enabled(x, e)
    ensures var y := Fire(n, x, e).0;
      y.defender.Releasing? ==>
        if e.Defend? then y.defender == Releasing(e.f.alias) && Foreign(x, e.f) else y.defender == x.defender
  {}
}
