/** Forwarding of throttle commands between the trains of a consist
    (TractionRequestFlow in src/openlcb/TractionTrain.cpp). Every train applies a
    command and passes it on to its listeners, except back to where it came from,
    turning the direction around on links flagged REVERSE. The trains run
    concurrently: messages wait on the bus and are taken up in any order, and a train
    handles its listeners one step at a time. */
module ConsistFlood {

  type Payload = seq<bv8>

  const REQ_SET_SPEED: bv8 := 0x00
  const REQ_SET_FN: bv8 := 0x01
  const REQ_EMERGENCY_STOP: bv8 := 0x02
  const REQ_MASK: bv8 := 0x7F
  const REQ_LISTENER: bv8 := 0x80
  const CNSTFLAGS_REVERSE: bv8 := 0x02
  const CNSTFLAGS_LINKF0: bv8 := 0x04
  const CNSTFLAGS_LINKFN: bv8 := 0x08

  /** An entry of a train's consist list. Trains are numbered 0, 1, ... */
  datatype Link = Link(dst: int, flags: bv8)

  datatype Message = Message(src: int, dst: int, payload: Payload)

  function Command(p: Payload): bv8
    requires p != []
  {
    p[0] & REQ_MASK
  }

  /** A command that the flow forwards, with all the bytes it reads. */
  predicate Forwardable(p: Payload) {
    && p != []
    && (Command(p) == REQ_SET_SPEED || Command(p) == REQ_SET_FN || Command(p) == REQ_EMERGENCY_STOP)
    && (Command(p) == REQ_SET_SPEED ==> |p| >= 3)
    && (Command(p) == REQ_SET_FN ==> |p| >= 6)
  }

  /** Function commands follow only links that carry F0, or the other functions. */
  predicate Passes(p: Payload, flags: bv8)
    requires Forwardable(p)
  {
    Command(p) == REQ_SET_FN ==>
      flags & (if p[1] == 0 && p[2] == 0 && p[3] == 0 then CNSTFLAGS_LINKF0 else CNSTFLAGS_LINKFN) != 0
  }

  /** The payload as it is sent over a link. */
  function Relayed(p: Payload, flags: bv8): (q: Payload)
    requires Forwardable(p)
    ensures |q| == |p|
  {
    var q := p[0 := p[0] | REQ_LISTENER];
    if Command(p) == REQ_SET_SPEED && flags & CNSTFLAGS_REVERSE != 0 then q[1 := p[1] ^ 0x80] else q
  }

  lemma RelayKeepsCommand(p: Payload, flags: bv8)
    requires Forwardable(p)
    ensures Forwardable(Relayed(p, flags)) && Command(Relayed(p, flags)) == Command(p)
    ensures forall f :: Passes(Relayed(p, flags), f) == Passes(p, f)
  {
    ListenerBit(p[0]);
  }

  lemma ListenerBit(b: bv8)
    ensures (b | REQ_LISTENER) & REQ_MASK == b & REQ_MASK
    ensures (b | REQ_LISTENER) | REQ_LISTENER == b | REQ_LISTENER
  {}

  // ---------------------------------------------------------------------
  // One train's flow

  datatype Flow = Waiting | Forwarding(msg: Message, next: nat)

  /** The listener index has 8 bits. */
  const INDEX_LIMIT := 256

  /** Is a listener sent a copy? */
  predicate Due(l: Link, msg: Message)
    requires Forwardable(msg.payload)
  {
    l.dst != msg.src && Passes(msg.payload, l.flags)
  }

  /** In terms of bytes and flag bits. */
  lemma DueMeaning(l: Link, msg: Message)
    requires Forwardable(msg.payload)
    ensures var p := msg.payload;
      && p != [] && (p[0] & 0x7F == 0x01 ==> |p| >= 6)
      && (Due(l, msg) <==>
            && l.dst != msg.src
            && (p[0] & 0x7F == 0x01 ==> l.flags & (if p[1] == 0 && p[2] == 0 && p[3] == 0 then 0x04 else 0x08) != 0))
  {}

  /** One pass of maybe_forward_consist: skip a listener or send to it. */
  function ForwardStep(list: seq<Link>, me: int, msg: Message, next: nat): (Flow, seq<Message>)
    requires Forwardable(msg.payload)
  {
    if |list| <= next then (Waiting, [])
    else
      var l, after := list[next], Forwarding(msg, (next + 1) % INDEX_LIMIT);
      if !Due(l, msg) then (after, [])
      else (if |list| == next + 1 then Waiting else after, [Message(me, l.dst, Relayed(msg.payload, l.flags))])
  }

  /** All that a train sends because of `msg`, from listener `next` on. */
  function Outgoing(list: seq<Link>, me: int, msg: Message, next: nat): seq<Message>
    requires Forwardable(msg.payload)
    decreases |list| - next
  {
    if |list| <= next then []
    else
      var l := list[next];
      (if Due(l, msg) then [Message(me, l.dst, Relayed(msg.payload, l.flags))] else [])
      + Outgoing(list, me, msg, next + 1)
  }

  lemma OutgoingStep(list: seq<Link>, me: int, msg: Message, next: nat)
    requires Forwardable(msg.payload) && |list| < INDEX_LIMIT
    ensures var (f, sent) := ForwardStep(list, me, msg, next);
      && (f.Forwarding? ==> f == Forwarding(msg, next + 1) && next < |list|)
      && Outgoing(list, me, msg, next) == sent + if f.Forwarding? then Outgoing(list, me, msg, next + 1) else []
  {
    hide Due, Relayed;
  }

  /** The flow after `n` passes. */
  function FlowAfter(list: seq<Link>, me: int, msg: Message, n: nat): Flow
    requires Forwardable(msg.payload)
  {
    if n == 0 then Forwarding(msg, 0)
    else
      var f := FlowAfter(list, me, msg, n - 1);
      if f.Waiting? then f else ForwardStep(list, me, msg, f.next).0
  }

  /** Does the train ever finish with the command? */
  ghost predicate Finishes(list: seq<Link>, me: int, msg: Message)
    requires Forwardable(msg.payload)
  {
    exists n :: FlowAfter(list, me, msg, n) == Waiting
  }

  /** Up to the length of the list and the limit of the index, pass `n` looks at listener `n`. */
  lemma {:induction false} PassByPass(list: seq<Link>, me: int, msg: Message, n: nat)
    requires Forwardable(msg.payload) && n <= |list| && n < INDEX_LIMIT
    ensures var f := FlowAfter(list, me, msg, n);
      f == Forwarding(msg, n) || (f == Waiting && 0 < n == |list| && Due(list[n - 1], msg))
  {
    hide Due, Relayed, Forwardable;
    if n > 0 { PassByPass(list, me, msg, n - 1); }
  }

  lemma {:induction false} NeverFinishes(list: seq<Link>, me: int, msg: Message, n: nat)
    requires Forwardable(msg.payload)
    requires |list| > INDEX_LIMIT || (|list| == INDEX_LIMIT && !Due(list[INDEX_LIMIT - 1], msg))
    ensures var f := FlowAfter(list, me, msg, n); f.Forwarding? && f.msg == msg && f.next < INDEX_LIMIT
  {
    hide Due, Relayed, Forwardable;
    if n > 0 { NeverFinishes(list, me, msg, n - 1); }
  }

  /** With lists of up to 255 listeners every command comes to an end; with 256 it does if
      the last one is sent a copy; with more the index wraps around, and the train sends
      for ever. */
  lemma FinishesExactly(list: seq<Link>, me: int, msg: Message)
    requires Forwardable(msg.payload)
    ensures Finishes(list, me, msg) <==>
      |list| < 256 || (|list| == 256 && Due(list[255], msg))
  {
    hide Due, Relayed, Forwardable;
    if |list| < INDEX_LIMIT {
      PassByPass(list, me, msg, |list|);
      assert FlowAfter(list, me, msg, |list|) == Waiting || FlowAfter(list, me, msg, |list| + 1) == Waiting;
    } else if |list| == INDEX_LIMIT && Due(list[INDEX_LIMIT - 1], msg) {
      PassByPass(list, me, msg, INDEX_LIMIT - 1);
      assert FlowAfter(list, me, msg, INDEX_LIMIT) == Waiting;
    } else {
      forall n: nat ensures FlowAfter(list, me, msg, n) != Waiting {
        NeverFinishes(list, me, msg, n);
      }
    }
  }

  /** ForwardStep, case by case. */
  lemma StepCases(list: seq<Link>, me: int, msg: Message, k: nat)
    requires Forwardable(msg.payload)
    ensures |list| <= k ==> ForwardStep(list, me, msg, k) == (Waiting, [])
    ensures k < |list| && !Due(list[k], msg) ==> ForwardStep(list, me, msg, k) == (Forwarding(msg, (k + 1) % INDEX_LIMIT), [])
    ensures k < |list| && Due(list[k], msg) ==>
      && ForwardStep(list, me, msg, k).0 == (if |list| == k + 1 then Waiting else Forwarding(msg, (k + 1) % INDEX_LIMIT))
      && ForwardStep(list, me, msg, k).1 == [Message(me, list[k].dst, Relayed(msg.payload, list[k].flags))]
  {
    hide Due, Relayed, Forwardable;
  }

  lemma RelayedIs(p: Payload, flags: bv8)
    requires Forwardable(p)
    ensures var flip := Command(p) == REQ_SET_SPEED && flags & CNSTFLAGS_REVERSE != 0;
      Relayed(p, flags) == Listening(p, flip)
  {}

  /** The payload with the listener bit, and with the direction turned around if `flip`. */
  function Listening(p: Payload, flip: bool): Payload
    requires p != [] && (flip ==> |p| >= 2)
  {
    var l := p[0 := p[0] | REQ_LISTENER];
    if flip then l[1 := p[1] ^ 0x80] else l
  }

  /** The flow object: the listener index has 8 bits, and payload bytes are changed in place. */
  class TractionRequestFlow {
    const consist: seq<Link>
    const me: int
    var state: Flow
    var nextConsistIndex: nat

    constructor (me: int, consist: seq<Link>)
      ensures this.me == me && this.consist == consist && state == Waiting
    {
      this.me, this.consist, state, nextConsistIndex := me, consist, Waiting, 0;
    }

    predicate Valid()
      reads this
    {
      state.Forwarding? ==> nextConsistIndex == state.next < INDEX_LIMIT && Forwardable(state.msg.payload)
    }

    /** Takes up a command. The payload is what the train has to apply. */
    method Entry(msg: Message) returns (applied: Payload)
      requires Valid() && state == Waiting && Forwardable(msg.payload)
      modifies this
      ensures Valid() && state == Forwarding(msg, 0) && applied == msg.payload
    {
      applied := msg.payload;
      nextConsistIndex := 0;
      state := Forwarding(msg, 0);
    }

    /** One pass over the listeners, in the order of the original's tests. */
    method MaybeForwardConsist() returns (sent: seq<Message>)
      requires Valid() && state.Forwarding?
      modifies this
      ensures Valid() && (state, sent) == ForwardStep(consist, me, old(state.msg), old(state.next))
      ensures old(state.next) < |consist| ==>
        var l, p := consist[old(state.next)], old(state.msg.payload);
        sent != [] <==>
          && l.dst != old(state.msg.src)
          && (p[0] & 0x7F == 0x01 ==> l.flags & (if p[1] == 0 && p[2] == 0 && p[3] == 0 then 0x04 else 0x08) != 0)
    {
      if nextConsistIndex < |consist| { DueMeaning(consist[nextConsistIndex], state.msg); }
      hide ForwardStep, Relayed;
      var count := |consist|;
      var msg := state.msg;
      StepCases(consist, me, msg, nextConsistIndex);
      if count <= nextConsistIndex {
        state := Waiting;
        return [];
      }
      var flags, dst := consist[nextConsistIndex].flags, consist[nextConsistIndex].dst;
      if msg.src == dst {
        Advance();
        return [];
      }
      var cmd := msg.payload[0] & REQ_MASK;
      var flipSpeed := false;
      if cmd == REQ_SET_SPEED {
        if flags & CNSTFLAGS_REVERSE != 0 {
          flipSpeed := true;
        }
      } else if cmd == REQ_SET_FN {
        if msg.payload[1] == 0 && msg.payload[2] == 0 && msg.payload[3] == 0 {
          if flags & CNSTFLAGS_LINKF0 == 0 {
            Advance();
            return [];
          }
        } else {
          if flags & CNSTFLAGS_LINKFN == 0 {
            Advance();
            return [];
          }
        }
      }
      assert Due(consist[nextConsistIndex], msg);
      RelayedIs(msg.payload, flags);
      var payload := CopyForListener(msg.payload, flipSpeed);
      sent := [Message(me, dst, payload)];
      if count == nextConsistIndex + 1 {
        state := Waiting; // the message itself was handed on
      } else {
        Advance();
      }
    }

    /** Copies the payload, and edits the copy. */
    method CopyForListener(p: Payload, flipSpeed: bool) returns (q: Payload)
      requires p != [] && (flipSpeed ==> |p| >= 2)
      ensures q == Listening(p, flipSpeed)
    {
      var payload := new bv8[|p|](i requires 0 <= i < |p| => p[i]);
      if flipSpeed {
        payload[1] := payload[1] ^ 0x80;
      }
      payload[0] := payload[0] | REQ_LISTENER;
      q := payload[..];
    }

    method Advance()
      requires Valid() && state.Forwarding?
      modifies this
      ensures Valid() && state == Forwarding(old(state.msg), (old(state.next) + 1) % INDEX_LIMIT)
    {
      nextConsistIndex := (nextConsistIndex + 1) % INDEX_LIMIT;
      state := Forwarding(state.msg, nextConsistIndex);
    }

    /** Handles one command to the end. */
    method Process(msg: Message) returns (applied: Payload, sent: seq<Message>)
      requires Valid() && state == Waiting && Forwardable(msg.payload) && |consist| < INDEX_LIMIT
      modifies this
      ensures Valid() && state == Waiting && applied == msg.payload
      ensures sent == Outgoing(consist, me, msg, 0)
    {
      hide ForwardStep, Outgoing, Forwardable;
      applied := Entry(msg);
      sent := [];
      while state != Waiting
        invariant Valid()
        invariant state.Forwarding? ==> state.msg == msg && sent + Outgoing(consist, me, msg, state.next) == Outgoing(consist, me, msg, 0)
        invariant state == Waiting ==> sent == Outgoing(consist, me, msg, 0)
        invariant state.Forwarding? ==> state.next <= |consist|
        decreases if state.Forwarding? then 1 + |consist| - state.next else 0
      {
        OutgoingStep(consist, me, msg, state.next);
        var more := MaybeForwardConsist();
        sent := sent + more;
      }
    }
  }
}
