/** Runs of the consist flood over trains whose mutual listener links form a tree. */
module ConsistNetwork {
  import opened ConsistFlood

  /** The consist list of every train. */
  type Topology = seq<seq<Link>>

  // ---------------------------------------------------------------------
  // Trees

  /** A tree hung up at `root`: the parent and the depth of every train. */
  datatype Rooting = Rooting(root: nat, parent: seq<int>, depth: seq<nat>)

  predicate ShapeOk(r: Rooting, n: nat) {
    && r.root < n == |r.parent| == |r.depth| && r.depth[r.root] == 0
    && forall t | 0 <= t < n && t != r.root :: 0 <= r.parent[t] < n && r.depth[t] == r.depth[r.parent[t]] + 1
  }

  predicate Adjacent(r: Rooting, n: nat, t: int, u: int)
    requires ShapeOk(r, n) && 0 <= t < n && 0 <= u < n
  {
    (t != r.root && r.parent[t] == u) || (u != r.root && r.parent[u] == t)
  }

  ghost predicate HasLink(links: Topology, t: int, u: int) {
    0 <= t < |links| && exists i :: 0 <= i < |links[t]| && links[t][i].dst == u
  }

  /** No list is longer than the 8-bit listener index can go through. */
  ghost predicate FitsIndex(links: Topology) { forall t | 0 <= t < |links| :: |links[t]| < INDEX_LIMIT }

  ghost predicate Rooted(links: Topology, r: Rooting) { FitsIndex(links) && Edges(links, r) }

  /** The links are exactly the edges of the tree, both ways. */
  ghost predicate Edges(links: Topology, r: Rooting) {
    && ShapeOk(r, |links|)
    && (forall t, i | 0 <= t < |links| && 0 <= i < |links[t]| ::
          0 <= links[t][i].dst < |links| && Adjacent(r, |links|, t, links[t][i].dst))
    && (forall t, i, j | 0 <= t < |links| && 0 <= i < j < |links[t]| :: links[t][i].dst != links[t][j].dst)
    && (forall t | 0 <= t < |links| && t != r.root :: HasLink(links, t, r.parent[t]) && HasLink(links, r.parent[t], t))
  }

  ghost predicate IsTree(links: Topology) { exists r :: Edges(links, r) }

  /** Is `t` at or below train `c`? */
  predicate Below(r: Rooting, n: nat, c: int, t: int)
    requires ShapeOk(r, n) && 0 <= t < n
    decreases r.depth[t]
  {
    t == c || (t != r.root && Below(r, n, c, r.parent[t]))
  }

  /** The tree hung up at a child of its root instead. */
  function Lifted(r: Rooting, n: nat, c: nat): (q: Rooting)
    requires ShapeOk(r, n) && c < n && c != r.root && r.parent[c] == r.root
    ensures ShapeOk(q, n) && q.root == c
    ensures forall t, u | 0 <= t < n && 0 <= u < n :: Adjacent(q, n, t, u) == Adjacent(r, n, t, u)
  {
    BelowDepth(r, n, c);
    Rooting(c, r.parent[r.root := c],
            seq(n, t requires 0 <= t < n => if Below(r, n, c, t) then r.depth[t] - 1 else r.depth[t] + 1))
  }

  lemma BelowDepth(r: Rooting, n: nat, c: nat)
    requires ShapeOk(r, n) && c < n && c != r.root && r.parent[c] == r.root
    ensures forall t | 0 <= t < n :: Below(r, n, c, t) ==> r.depth[t] >= 1
    ensures !Below(r, n, c, r.root)
  {
    forall t | 0 <= t < n ensures Below(r, n, c, t) ==> r.depth[t] >= 1 {
      assert t == r.root || r.depth[t] == r.depth[r.parent[t]] + 1;
    }
  }

  lemma LiftedRooted(links: Topology, r: Rooting, c: nat)
    requires Rooted(links, r) && c < |links| && c != r.root && r.parent[c] == r.root
    ensures Rooted(links, Lifted(r, |links|, c))
  {
    var q := Lifted(r, |links|, c);
    forall t | 0 <= t < |links| && t != q.root ensures HasLink(links, t, q.parent[t]) && HasLink(links, q.parent[t], t) {
      assert c != r.root;
    }
  }

  /** The child of the root on the way to `t`. */
  function Branch(r: Rooting, n: nat, t: nat): (c: nat)
    requires ShapeOk(r, n) && t < n && t != r.root
    ensures c < n && c != r.root && r.parent[c] == r.root && Below(r, n, c, t)
    decreases r.depth[t]
  {
    if r.parent[t] == r.root then t else Branch(r, n, r.parent[t])
  }

  /** A tree can be hung up at any of its trains. */
  lemma {:induction false} Reroot(links: Topology, r: Rooting, root: nat) returns (q: Rooting)
    requires Rooted(links, r) && root < |links|
    ensures Rooted(links, q) && q.root == root
    decreases r.depth[root]
  {
    if root == r.root {
      q := r;
    } else {
      var c := Branch(r, |links|, root);
      LiftedRooted(links, r, c);
      q := Reroot(links, Lifted(r, |links|, c), root);
    }
  }

  // ---------------------------------------------------------------------
  // What should arrive where

  /** Position of the link to `u` in the list of train `t`. */
  function LinkTo(list: seq<Link>, u: int): (i: nat)
    ensures i <= |list| && (i < |list| ==> list[i].dst == u)
    ensures (exists k :: 0 <= k < |list| && list[k].dst == u) ==> i < |list|
  {
    if list == [] || list[0].dst == u then 0 else 1 + LinkTo(list[1..], u)
  }

  ghost function FlagsInto(links: Topology, r: Rooting, t: nat): bv8
    requires Rooted(links, r) && t < |links| && t != r.root
  {
    var u := r.parent[t];
    assert HasLink(links, u, t);
    links[u][LinkTo(links[u], t)].flags
  }

  /** Does the command get to `t`: does every link on the path from the root pass it on? */
  ghost predicate Reached(links: Topology, r: Rooting, p: Payload, t: nat)
    requires Rooted(links, r) && t < |links| && Forwardable(p)
    decreases r.depth[t]
  {
    t == r.root || (Reached(links, r, p, r.parent[t]) && Passes(p, FlagsInto(links, r, t)))
  }

  /** The payload changed by every link on the path from the root. */
  ghost function Expected(links: Topology, r: Rooting, p: Payload, t: nat): (q: Payload)
    requires Rooted(links, r) && t < |links| && Forwardable(p)
    ensures Forwardable(q) && Command(q) == Command(p)
    ensures forall f :: Passes(q, f) == Passes(p, f)
    decreases r.depth[t]
  {
    if t == r.root then p
    else
      var q := Expected(links, r, p, r.parent[t]);
      RelayKeepsCommand(q, FlagsInto(links, r, t));
      Relayed(q, FlagsInto(links, r, t))
  }

  /** The one message that can ever be sent to `t`. */
  ghost function Token(links: Topology, r: Rooting, ctrl: int, p: Payload, t: nat): Message
    requires Rooted(links, r) && t < |links| && Forwardable(p)
  {
    Message(if t == r.root then ctrl else r.parent[t], t, Expected(links, r, p, t))
  }

  /** Number of REVERSE links on the path from the root. */
  ghost function Reversals(links: Topology, r: Rooting, t: nat): nat
    requires Rooted(links, r) && t < |links|
    decreases r.depth[t]
  {
    if t == r.root then 0
    else Reversals(links, r, r.parent[t]) + (if FlagsInto(links, r, t) & 0x02 != 0 then 1 else 0)
  }

  /** `q` is `p`, marked as forwarded if `marked`, with the direction turned `turns` times. */
  predicate SpeedCopy(p: Payload, q: Payload, marked: bool, turns: nat) {
    && |q| == |p| >= 2 && q[2..] == p[2..]
    && q[0] == (if marked then p[0] | 0x80 else p[0])
    && q[1] == if turns % 2 == 0 then p[1] else p[1] ^ 0x80
  }

  /** A speed command gets everywhere, unchanged but for the listener bit and a
      direction bit turned around once per REVERSE link. */
  lemma {:induction false} SpeedReachesAll(links: Topology, r: Rooting, p: Payload, t: nat)
    requires Rooted(links, r) && t < |links| && Forwardable(p) && Command(p) == REQ_SET_SPEED
    ensures Reached(links, r, p, t)
    ensures SpeedCopy(p, Expected(links, r, p, t), t != r.root, Reversals(links, r, t))
    decreases r.depth[t]
  {
    OneHop(links, r, p, t);
    UnturnedCopy(p);
    hide *;
    if t != r.root {
      var u, flags := r.parent[t], FlagsInto(links, r, t);
      SpeedReachesAll(links, r, p, u);
      SpeedStep(p, Expected(links, r, p, u), u != r.root, Reversals(links, r, u), flags);
    }
  }

  /** Do all links on the path from the root have the flag? */
  ghost predicate LinkedBy(links: Topology, r: Rooting, t: nat, flag: bv8)
    requires Rooted(links, r) && t < |links|
    decreases r.depth[t]
  {
    t == r.root || (LinkedBy(links, r, r.parent[t], flag) && FlagsInto(links, r, t) & flag != 0)
  }

  /** `p`, marked as forwarded if it is. */
  function PlainCopy(p: Payload, marked: bool): Payload
    requires p != []
  {
    if marked then p[0 := p[0] | 0x80] else p
  }

  /** The flag that lets a function command pass: one for function 0, one for all others. */
  function FnFlag(p: Payload): bv8
    requires |p| >= 4
  {
    if p[1] == 0 && p[2] == 0 && p[3] == 0 then 0x04 else 0x08
  }

  lemma RelayPlain(p: Payload, flags: bv8)
    requires Forwardable(p) && p[0] & 0x7F != 0
    ensures Relayed(p, flags) == PlainCopy(p, true)
  {}

  lemma PlainTwice(p: Payload, marked: bool)
    requires p != [] && p[0] & 0x7F != 0
    ensures var q := PlainCopy(p, marked);
      q[0] & 0x7F != 0 && PlainCopy(q, true) == PlainCopy(p, true)
  {
    ListenerBit(p[0]);
  }

  lemma FnPasses(p: Payload, flags: bv8)
    requires Forwardable(p)
    ensures p[0] & 0x7F == 0x01 ==> |p| >= 6 && (Passes(p, flags) <==> flags & FnFlag(p) != 0)
    ensures p[0] & 0x7F == 0x02 ==> Passes(p, flags)
  {}

  lemma LinkedHop(links: Topology, r: Rooting, t: nat, flag: bv8)
    requires Rooted(links, r) && t < |links|
    ensures t == r.root ==> LinkedBy(links, r, t, flag)
    ensures t != r.root ==> var u := r.parent[t];
      && 0 <= u < |links|
      && (LinkedBy(links, r, t, flag) <==> LinkedBy(links, r, u, flag) && FlagsInto(links, r, t) & flag != 0)
  {
    hide FlagsInto;
  }

  lemma RootingSizes(links: Topology, r: Rooting)
    requires Rooted(links, r)
    ensures |r.parent| == |r.depth| == |links|
  {}

  lemma NotMarked(p: Payload)
    requires Forwardable(p)
    ensures p != [] && PlainCopy(p, false) == p
    ensures p[0] & 0x7F == 0x01 ==> |p| >= 6
  {}

  /** Any other command is not changed but for the listener bit. A function command goes
      as far as the links have the flag for it, an emergency stop everywhere. */
  lemma {:induction false} PlainReaches(links: Topology, r: Rooting, p: Payload, t: nat)
    requires Rooted(links, r) && t < |links| && Forwardable(p) && p[0] & 0x7F != 0
    ensures Expected(links, r, p, t) == PlainCopy(p, t != r.root)
    ensures p[0] & 0x7F == 0x01 ==> |p| >= 6 && (Reached(links, r, p, t) <==> LinkedBy(links, r, t, FnFlag(p)))
    ensures p[0] & 0x7F == 0x02 ==> Reached(links, r, p, t)
    decreases r.depth[t]
  {
    hide *;
    RootingSizes(links, r);
    NotMarked(p);
    OneHop(links, r, p, t);
    if t != r.root {
      var u, flags := r.parent[t], FlagsInto(links, r, t);
      PlainReaches(links, r, p, u);
      PlainTwice(p, u != r.root);
      RelayPlain(Expected(links, r, p, u), flags);
      FnPasses(p, flags);
    }
    if |p| >= 6 { LinkedHop(links, r, t, FnFlag(p)); }
  }

  lemma UnturnedCopy(p: Payload)
    requires Forwardable(p) && Command(p) == REQ_SET_SPEED
    ensures SpeedCopy(p, p, false, 0)
  {}

  lemma SpeedStep(p: Payload, q: Payload, marked: bool, turns: nat, flags: bv8)
    requires Forwardable(q) && Command(q) == REQ_SET_SPEED && SpeedCopy(p, q, marked, turns)
    ensures SpeedCopy(p, Relayed(q, flags), true, turns + if flags & CNSTFLAGS_REVERSE != 0 then 1 else 0)
  {
    ListenerBit(p[0]);
    FlipTwice(p[1]);
    RelaySpeed(q, flags);
    hide Relayed, Forwardable, Command;
  }

  /** The definitions along one link. */
  lemma OneHop(links: Topology, r: Rooting, p: Payload, t: nat)
    requires Rooted(links, r) && t < |links| && Forwardable(p)
    ensures t == r.root ==>
      Reached(links, r, p, t) && Expected(links, r, p, t) == p && Reversals(links, r, t) == 0
    ensures t != r.root ==>
      var u, flags := r.parent[t], FlagsInto(links, r, t);
      && 0 <= u < |links| && r.depth[t] == r.depth[u] + 1
      && (Reached(links, r, p, t) <==> Reached(links, r, p, u) && Passes(p, flags))
      && (Command(p) == REQ_SET_SPEED ==> Passes(p, flags))
      && Expected(links, r, p, t) == Relayed(Expected(links, r, p, u), flags)
      && Reversals(links, r, t) == Reversals(links, r, u) + if flags & CNSTFLAGS_REVERSE != 0 then 1 else 0
  {
    hide FlagsInto, Relayed, Forwardable;
  }

  lemma RelaySpeed(p: Payload, flags: bv8)
    requires Forwardable(p) && Command(p) == REQ_SET_SPEED
    ensures var q := Relayed(p, flags);
      && |q| == |p| >= 3 && q[0] == p[0] | REQ_LISTENER && q[2..] == p[2..]
      && q[1] == if flags & CNSTFLAGS_REVERSE != 0 then p[1] ^ 0x80 else p[1]
  {}

  lemma FlipTwice(b: bv8)
    ensures (b ^ 0x80) ^ 0x80 == b
  {}

  // ---------------------------------------------------------------------
  // Runs

  /** `applied` lists what each train applied so far. */
  datatype Net = Net(flows: seq<Flow>, applied: seq<seq<Payload>>, bus: multiset<Message>)

  datatype Event = Deliver(msg: Message) | Forward(train: nat)

  ghost predicate Enabled(s: Net, e: Event) {
    match e
    case Deliver(m) => m in s.bus && 0 <= m.dst < |s.flows| && s.flows[m.dst] == Waiting
    case Forward(t) => t < |s.flows| && s.flows[t].Forwarding?
  }

  ghost predicate SizesOk(links: Topology, s: Net) {
    && |s.flows| == |s.applied| == |links|
    && (forall t | 0 <= t < |links| && s.flows[t].Forwarding? :: Forwardable(s.flows[t].msg.payload))
    && (forall m | m in s.bus :: Forwardable(m.payload))
  }

  ghost function After(links: Topology, s: Net, e: Event): Net
    requires SizesOk(links, s) && Enabled(s, e)
  {
    match e
    case Deliver(m) =>
      Net(s.flows[m.dst := Forwarding(m, 0)], s.applied[m.dst := s.applied[m.dst] + [m.payload]], s.bus - multiset{m})
    case Forward(t) =>
      var (f, sent) := ForwardStep(links[t], t, s.flows[t].msg, s.flows[t].next);
      s.(flows := s.flows[t := f], bus := s.bus + multiset(sent))
  }

  /** A throttle outside the consist sends one command to `root`. */
  function Start(links: Topology, ctrl: int, root: nat, p: Payload): Net {
    Net(seq(|links|, _ => Waiting), seq(|links|, _ => []), multiset{Message(ctrl, root, p)})
  }

  ghost predicate IsRun(links: Topology, ctrl: int, root: nat, p: Payload, run: seq<Net>) {
    && run != [] && run[0] == Start(links, ctrl, root, p)
    && forall k | 0 <= k < |run| - 1 :: Next(links, run[k], run[k + 1])
  }

  ghost predicate Next(links: Topology, s: Net, s': Net) {
    SizesOk(links, s) && exists e :: Enabled(s, e) && s' == After(links, s, e)
  }

  // ---------------------------------------------------------------------
  // The invariant

  /** Has the parent of `t` come past its link to `t`? */
  ghost predicate Handled(links: Topology, r: Rooting, s: Net, t: nat)
    requires Rooted(links, r) && t < |links| && SizesOk(links, s)
  {
    t == r.root ||
    var u := r.parent[t];
    s.applied[u] != [] && (s.flows[u] == Waiting || s.flows[u].next > LinkTo(links[u], t))
  }

  lemma InvSizes(links: Topology, r: Rooting, ctrl: int, p: Payload, s: Net)
    requires Rooted(links, r) && Forwardable(p) && Inv(links, r, ctrl, p, s)
    ensures SizesOk(links, s)
  {}

  lemma TrainMeaning(links: Topology, r: Rooting, ctrl: int, p: Payload, s: Net, t: nat)
    requires Rooted(links, r) && t < |links| && Forwardable(p) && SizesOk(links, s)
    ensures Inv(links, r, ctrl, p, s) ==> TrainOk(links, r, ctrl, p, s, t)
    ensures var token := Token(links, r, ctrl, p, t);
      TrainOk(links, r, ctrl, p, s, t) <==>
      StatusOk(token, s.applied[t], s.flows[t], |links[t]|, s.bus[token], Reached(links, r, p, t) && Handled(links, r, s, t))
  {}

  /** One train: `token` is on the bus, or applied, but only once, and only if it is due. */
  predicate StatusOk(token: Message, applied: seq<Payload>, flow: Flow, links: nat, pending: nat, due: bool) {
    && (applied == [] || applied == [token.payload])
    && (flow.Forwarding? ==> flow.msg == token && applied != [] && flow.next <= links)
    && pending <= 1
    && (pending == 1 || applied != [] <==> due)
    && !(pending == 1 && applied != [])
  }

  ghost predicate TrainOk(links: Topology, r: Rooting, ctrl: int, p: Payload, s: Net, t: nat)
    requires Rooted(links, r) && t < |links| && Forwardable(p) && SizesOk(links, s)
  {
    var token := Token(links, r, ctrl, p, t);
    StatusOk(token, s.applied[t], s.flows[t], |links[t]|, s.bus[token],
             Reached(links, r, p, t) && Handled(links, r, s, t))
  }

  ghost predicate Inv(links: Topology, r: Rooting, ctrl: int, p: Payload, s: Net)
    requires Rooted(links, r) && Forwardable(p)
  {
    && SizesOk(links, s)
    && (forall m | m in s.bus :: 0 <= m.dst < |links| && m == Token(links, r, ctrl, p, m.dst))
    && (forall t: nat | t < |links| :: TrainOk(links, r, ctrl, p, s, t))
  }

  lemma StartInv(links: Topology, r: Rooting, ctrl: int, p: Payload)
    requires Rooted(links, r) && Forwardable(p)
    ensures Inv(links, r, ctrl, p, Start(links, ctrl, r.root, p))
  {
    assert Token(links, r, ctrl, p, r.root) == Message(ctrl, r.root, p);
    hide Expected, Reached, LinkTo;
  }

  /** Taking up a message changes nothing about what other trains have sent. */
  lemma DeliverHandled(links: Topology, r: Rooting, s: Net, m: Message, t: nat)
    requires Rooted(links, r) && t < |links| && SizesOk(links, s) && Enabled(s, Deliver(m))
    requires s.applied[m.dst] == [] && SizesOk(links, After(links, s, Deliver(m)))
    ensures Handled(links, r, After(links, s, Deliver(m)), t) == Handled(links, r, s, t)
  {}

  lemma DeliverTrain(links: Topology, r: Rooting, ctrl: int, p: Payload, s: Net, m: Message, t: nat)
    requires Rooted(links, r) && Forwardable(p) && Inv(links, r, ctrl, p, s) && Enabled(s, Deliver(m))
    requires t < |links| && SizesOk(links, After(links, s, Deliver(m))) && 0 <= m.dst < |links|
    ensures TrainOk(links, r, ctrl, p, After(links, s, Deliver(m)), t)
  {
    assert TrainOk(links, r, ctrl, p, s, m.dst) && TrainOk(links, r, ctrl, p, s, t);
    assert m == Token(links, r, ctrl, p, m.dst) && Token(links, r, ctrl, p, t).dst == t;
    hide Expected, Reached, LinkTo, Handled, Rooted, Inv, Forwardable, Token;
    assert s.applied[m.dst] == [];
    DeliverHandled(links, r, s, m, t);
  }

  lemma DeliverInv(links: Topology, r: Rooting, ctrl: int, p: Payload, s: Net, m: Message)
    requires Rooted(links, r) && Forwardable(p) && Inv(links, r, ctrl, p, s) && Enabled(s, Deliver(m))
    ensures Inv(links, r, ctrl, p, After(links, s, Deliver(m)))
  {
    var s' := After(links, s, Deliver(m));
    hide Expected, Reached, LinkTo, TrainOk, Token, Rooted;
    forall t: nat | t < |links| ensures TrainOk(links, r, ctrl, p, s', t) {
      DeliverTrain(links, r, ctrl, p, s, m, t);
    }
  }

  /** The link to a child stands where LinkTo finds it. */
  lemma LinkAt(links: Topology, r: Rooting, t: nat, i: nat)
    requires Rooted(links, r) && t < |links| && i < |links[t]|
    ensures var u := links[t][i].dst;
      && 0 <= u < |links| && u != t && LinkTo(links[t], u) == i
      && ((t != r.root && r.parent[t] == u) || (u != r.root && r.parent[u] == t))
      && (u != r.root && r.parent[u] == t ==> FlagsInto(links, r, u) == links[t][i].flags && !(t != r.root && r.parent[t] == u))
  {
    var u := links[t][i].dst;
    var j := LinkTo(links[t], u);
    assert links[t][i].dst == u;
    assert j < |links[t]| && links[t][j].dst == links[t][i].dst;
    assert Adjacent(r, |links|, t, u);
  }

  /** Every child has its place in the list of its parent. */
  lemma ChildLink(links: Topology, r: Rooting, v: nat)
    requires Rooted(links, r) && v < |links| && v != r.root
    ensures 0 <= r.parent[v] < |links| && LinkTo(links[r.parent[v]], v) < |links[r.parent[v]]|
  {
    assert HasLink(links, r.parent[v], v);
  }

  /** One pass, while the index does not wrap around. */
  lemma StepShape(list: seq<Link>, me: int, msg: Message, k: nat)
    requires Forwardable(msg.payload) && k <= |list| < INDEX_LIMIT
    ensures var (f, sent) := ForwardStep(list, me, msg, k);
      && (f.Forwarding? ==> f == Forwarding(msg, k + 1) && k < |list|)
      && (f == Waiting ==> k == |list| || (k + 1 == |list| && sent != []))
      && sent == if k < |list| && Due(list[k], msg) then [Message(me, list[k].dst, Relayed(msg.payload, list[k].flags))] else []
  {
    hide Due, Relayed, Forwardable;
  }

  /** What a forwarding pass of train `t` amounts to: its listener `v` is the next
      child that the command goes to, or nothing is sent. */
  lemma ForwardShape(links: Topology, r: Rooting, ctrl: int, p: Payload, s: Net, t: nat)
    requires Rooted(links, r) && Forwardable(p) && Inv(links, r, ctrl, p, s) && Enabled(s, Forward(t))
    requires !(0 <= ctrl < |links|)
    ensures var k, list := s.flows[t].next, links[t];
      var (f, sent) := ForwardStep(list, t, s.flows[t].msg, k);
      && k <= |list| && s.applied[t] != [] && Reached(links, r, p, t)
      && (f.Forwarding? ==> f == Forwarding(s.flows[t].msg, k + 1) && k < |list|)
      && (f == Waiting ==> k == |list| || (k + 1 == |list| && sent != []))
      && (sent == [] || (k < |list| && 0 <= list[k].dst < |links| && list[k].dst != t
            && sent == [Token(links, r, ctrl, p, list[k].dst)]))
      && (k < |list| ==>
            var v := list[k].dst;
            && 0 <= v < |links| && LinkTo(list, v) == k
            && (sent != [] <==> v != r.root && r.parent[v] == t && Reached(links, r, p, v)))
  {
    hide ForwardStep, Relayed, Passes, LinkTo, Edges, FlagsInto, Handled, Inv, Expected, Reached, Forwardable;
    InvSizes(links, r, ctrl, p, s);
    TrainMeaning(links, r, ctrl, p, s, t);
    var k, list, msg := s.flows[t].next, links[t], s.flows[t].msg;
    assert msg == Token(links, r, ctrl, p, t) && msg.payload == Expected(links, r, p, t);
    StepShape(list, t, msg, k);
    if k < |list| {
      LinkAt(links, r, t, k);
      var v := list[k].dst;
      OneHop(links, r, p, v);
    }
  }

  /** The count of the message to `x` on the bus after a pass. */
  lemma ForwardCount(links: Topology, r: Rooting, ctrl: int, p: Payload, bus: multiset<Message>, sent: seq<Message>, v: nat, x: nat)
    requires Rooted(links, r) && Forwardable(p) && v < |links| && x < |links|
    requires sent == [] || sent == [Token(links, r, ctrl, p, v)]
    ensures var token := Token(links, r, ctrl, p, x);
      (bus + multiset(sent))[token] == bus[token] + if sent != [] && v == x then 1 else 0
  {
    assert Token(links, r, ctrl, p, x).dst == x && Token(links, r, ctrl, p, v).dst == v;
    hide *;
    if sent != [] {
      assert multiset(sent) == multiset{Token(links, r, ctrl, p, v)};
    }
  }

  /** A pass of train `t` handles the listener it has looked at, and nothing else. */
  lemma ForwardHandled(links: Topology, r: Rooting, s: Net, t: nat, f: Flow, bus: multiset<Message>, x: nat)
    requires Rooted(links, r) && x < |links| && t < |links| && SizesOk(links, s)
    requires s.flows[t].Forwarding? && s.applied[t] != []
    requires SizesOk(links, s.(flows := s.flows[t := f], bus := bus))
    requires var k, msg := s.flows[t].next, s.flows[t].msg;
      && k <= |links[t]| && (f == Waiting || f == Forwarding(msg, k + 1))
      && (f == Waiting ==> k + 1 >= |links[t]|)
    ensures Handled(links, r, s.(flows := s.flows[t := f], bus := bus), x)
      <==> Handled(links, r, s, x) || (x != r.root && r.parent[x] == t && LinkTo(links[t], x) == s.flows[t].next)
    ensures x != r.root && r.parent[x] == t && LinkTo(links[t], x) == s.flows[t].next ==> !Handled(links, r, s, x)
  {
    if x != r.root { ChildLink(links, r, x); }
    hide LinkTo, Rooted, Forwardable;
  }

  lemma ForwardTrain(links: Topology, r: Rooting, ctrl: int, p: Payload, s: Net, t: nat, x: nat)
    requires Rooted(links, r) && Forwardable(p) && Inv(links, r, ctrl, p, s) && Enabled(s, Forward(t))
    requires !(0 <= ctrl < |links|) && x < |links|
    requires SizesOk(links, After(links, s, Forward(t)))
    ensures TrainOk(links, r, ctrl, p, After(links, s, Forward(t)), x)
  {
    hide ForwardStep, Expected, Reached, LinkTo, Rooted, Inv, Forwardable, Handled, Token, TrainOk;
    InvSizes(links, r, ctrl, p, s);
    var s' := After(links, s, Forward(t));
    var k, list := s.flows[t].next, links[t];
    var (f, sent) := ForwardStep(list, t, s.flows[t].msg, k);
    ForwardShape(links, r, ctrl, p, s, t);
    if x != r.root { ChildLink(links, r, x); }
    assert s' == s.(flows := s.flows[t := f], bus := s.bus + multiset(sent));
    TrainMeaning(links, r, ctrl, p, s, x);
    TrainMeaning(links, r, ctrl, p, s, t);
    TrainMeaning(links, r, ctrl, p, s', x);
    ForwardHandled(links, r, s, t, f, s'.bus, x);
    ForwardCount(links, r, ctrl, p, s.bus, sent, if sent == [] then 0 else list[k].dst, x);
  }

  lemma ForwardInv(links: Topology, r: Rooting, ctrl: int, p: Payload, s: Net, t: nat)
    requires Rooted(links, r) && Forwardable(p) && Inv(links, r, ctrl, p, s) && Enabled(s, Forward(t))
    requires !(0 <= ctrl < |links|)
    ensures Inv(links, r, ctrl, p, After(links, s, Forward(t)))
  {
    ForwardShape(links, r, ctrl, p, s, t);
    var s' := After(links, s, Forward(t));
    var (f, sent) := ForwardStep(links[t], t, s.flows[t].msg, s.flows[t].next);
    hide ForwardStep, Expected, Reached, LinkTo, Rooted, TrainOk, Forwardable;
    forall m | m in s'.bus ensures Forwardable(m.payload) && 0 <= m.dst < |links| && m == Token(links, r, ctrl, p, m.dst) {
      assert m in s.bus || m in sent;
    }
    assert SizesOk(links, s');
    forall x: nat | x < |links| ensures TrainOk(links, r, ctrl, p, s', x) {
      ForwardTrain(links, r, ctrl, p, s, t, x);
    }
  }

  lemma {:induction false} RunInv(links: Topology, r: Rooting, ctrl: int, p: Payload, run: seq<Net>, k: nat)
    requires Rooted(links, r) && Forwardable(p) && !(0 <= ctrl < |links|)
    requires IsRun(links, ctrl, r.root, p, run) && k < |run|
    ensures Inv(links, r, ctrl, p, run[k])
  {
    if k == 0 {
      StartInv(links, r, ctrl, p);
    } else {
      RunInv(links, r, ctrl, p, run, k - 1);
      assert Next(links, run[k - 1], run[k - 1 + 1]);
      hide *;
      NextInv(links, r, ctrl, p, run[k - 1], run[k]);
    }
  }

  lemma NextInv(links: Topology, r: Rooting, ctrl: int, p: Payload, s: Net, s': Net)
    requires Rooted(links, r) && Forwardable(p) && !(0 <= ctrl < |links|)
    requires Inv(links, r, ctrl, p, s) && Next(links, s, s')
    ensures Inv(links, r, ctrl, p, s')
  {
    var e :| Enabled(s, e) && s' == After(links, s, e);
    hide Inv, Rooted, Forwardable, After, Enabled, SizesOk;
    match e
    case Deliver(m) => DeliverInv(links, r, ctrl, p, s, m);
    case Forward(t) => ForwardInv(links, r, ctrl, p, s, t);
  }

  // ---------------------------------------------------------------------
  // The flood comes to an end, and then it has done its work

  /** Steps that train `t` can still take. */
  ghost function WorkOf(links: Topology, s: Net, t: nat): nat
    requires SizesOk(links, s) && t < |links|
  {
    if s.applied[t] == [] then |links[t]| + 2
    else if s.flows[t].Forwarding? && s.flows[t].next <= |links[t]| then |links[t]| + 1 - s.flows[t].next
    else 0
  }

  ghost function Work(links: Topology, s: Net, n: nat): nat
    requires SizesOk(links, s) && n <= |links|
  {
    if n == 0 then 0 else Work(links, s, n - 1) + WorkOf(links, s, n - 1)
  }

  lemma {:induction false} WorkDrops(links: Topology, s: Net, s': Net, t: nat, n: nat)
    requires SizesOk(links, s) && SizesOk(links, s') && n <= |links| && t < |links|
    requires forall x: nat | x < |links| && x != t :: WorkOf(links, s', x) == WorkOf(links, s, x)
    requires WorkOf(links, s', t) < WorkOf(links, s, t)
    ensures Work(links, s', n) <= Work(links, s, n)
    ensures t < n ==> Work(links, s', n) < Work(links, s, n)
  {
    if n > 0 {
      WorkDrops(links, s, s', t, n - 1);
    }
  }

  lemma DeliverDrops(links: Topology, r: Rooting, ctrl: int, p: Payload, s: Net, m: Message)
    requires Rooted(links, r) && Forwardable(p) && Inv(links, r, ctrl, p, s) && !(0 <= ctrl < |links|)
    requires Enabled(s, Deliver(m)) && SizesOk(links, After(links, s, Deliver(m)))
    ensures Work(links, After(links, s, Deliver(m)), |links|) < Work(links, s, |links|)
  {
    assert TrainOk(links, r, ctrl, p, s, m.dst);
    hide Inv, TrainOk, Rooted, Token, Work;
    WorkDrops(links, s, After(links, s, Deliver(m)), m.dst, |links|);
  }

  lemma ForwardDrops(links: Topology, r: Rooting, ctrl: int, p: Payload, s: Net, t: nat)
    requires Rooted(links, r) && Forwardable(p) && Inv(links, r, ctrl, p, s) && !(0 <= ctrl < |links|)
    requires Enabled(s, Forward(t)) && SizesOk(links, After(links, s, Forward(t)))
    ensures Work(links, After(links, s, Forward(t)), |links|) < Work(links, s, |links|)
  {
    ForwardShape(links, r, ctrl, p, s, t);
    hide ForwardStep, Rooted, Inv, Token, Work, LinkTo;
    WorkDrops(links, s, After(links, s, Forward(t)), t, |links|);
  }

  lemma NextDrops(links: Topology, r: Rooting, ctrl: int, p: Payload, s: Net, s': Net)
    requires Rooted(links, r) && Forwardable(p) && Inv(links, r, ctrl, p, s) && !(0 <= ctrl < |links|)
    requires Next(links, s, s')
    ensures SizesOk(links, s) && SizesOk(links, s') && Work(links, s', |links|) < Work(links, s, |links|)
  {
    NextInv(links, r, ctrl, p, s, s');
    assert SizesOk(links, s) && SizesOk(links, s');
    var e :| Enabled(s, e) && s' == After(links, s, e);
    hide Inv, Rooted, Forwardable, After, Enabled, SizesOk, Work;
    match e
    case Deliver(m) => DeliverDrops(links, r, ctrl, p, s, m);
    case Forward(t) => ForwardDrops(links, r, ctrl, p, s, t);
  }

  /** No run is longer than the work there is at the start. */
  lemma {:induction false} RunsEnd(links: Topology, r: Rooting, ctrl: int, p: Payload, run: seq<Net>, k: nat)
    requires Rooted(links, r) && Forwardable(p) && !(0 <= ctrl < |links|)
    requires IsRun(links, ctrl, r.root, p, run) && k < |run|
    ensures SizesOk(links, run[0]) && SizesOk(links, run[k])
    ensures k + Work(links, run[k], |links|) <= Work(links, run[0], |links|)
    decreases k
  {
    if k > 0 {
      assert Next(links, run[k - 1], run[k - 1 + 1]);
      hide *;
      RunsEnd(links, r, ctrl, p, run, k - 1);
      RunInv(links, r, ctrl, p, run, k - 1);
      NextDrops(links, r, ctrl, p, run[k - 1], run[k]);
    } else {
      hide *;
      RunInv(links, r, ctrl, p, run, 0);
      InvSizes(links, r, ctrl, p, run[0]);
    }
  }

  /** When nothing can happen any more, the command has been where it should, once. */
  lemma {:induction false} Finished(links: Topology, r: Rooting, ctrl: int, p: Payload, s: Net, t: nat)
    requires Rooted(links, r) && Forwardable(p) && Inv(links, r, ctrl, p, s) && t < |links|
    requires s.bus == multiset{} && forall x | 0 <= x < |links| :: s.flows[x] == Waiting
    ensures s.applied[t] == if Reached(links, r, p, t) then [Expected(links, r, p, t)] else []
    decreases r.depth[t]
  {
    assert TrainOk(links, r, ctrl, p, s, t);
    if t != r.root {
      Finished(links, r, ctrl, p, s, r.parent[t]);
    }
  }

  ghost predicate Stuck(s: Net) { forall e :: !Enabled(s, e) }

  lemma StuckIsIdle(links: Topology, s: Net)
    requires SizesOk(links, s) && Stuck(s) && forall m | m in s.bus :: 0 <= m.dst < |links|
    ensures s.bus == multiset{} && forall t | 0 <= t < |links| :: s.flows[t] == Waiting
  {
    forall t: nat | t < |links| ensures s.flows[t] == Waiting {
      assert !Enabled(s, Forward(t));
    }
    forall m ensures m !in s.bus {
      assert !Enabled(s, Deliver(m));
    }
  }

  ghost predicate AtMostOnce(links: Topology, r: Rooting, p: Payload, s: Net)
    requires Rooted(links, r) && Forwardable(p)
  {
    && |s.applied| == |links|
    && forall t: nat | t < |links| :: s.applied[t] == [] || s.applied[t] == [Expected(links, r, p, t)]
  }

  /** Everything has been done. */
  ghost predicate Done(links: Topology, r: Rooting, p: Payload, s: Net)
    requires Rooted(links, r) && Forwardable(p)
  {
    && s.bus == multiset{} && |s.applied| == |links|
    && forall t: nat | t < |links| :: s.applied[t] == if Reached(links, r, p, t) then [Expected(links, r, p, t)] else []
  }

  /** The flood from any train `root` of any tree. There is one way to hang the tree up
      at `root`, and with it: in no run does a train apply the command twice, or with
      another payload than the path from `root` makes of it; no run goes on for ever;
      and once no step is left, the bus is empty, and exactly the trains that the
      command reaches have applied it. */
  lemma ExactlyOnce(links: Topology, root: nat, ctrl: int, p: Payload) returns (r: Rooting)
    requires IsTree(links) && FitsIndex(links) && root < |links| && Forwardable(p) && !(0 <= ctrl < |links|)
    ensures Rooted(links, r) && r.root == root
    ensures SizesOk(links, Start(links, ctrl, root, p))
    ensures forall run | IsRun(links, ctrl, root, p, run) ::
      && |run| <= 1 + Work(links, Start(links, ctrl, root, p), |links|)
      && forall s | s in run :: AtMostOnce(links, r, p, s) && (Stuck(s) ==> Done(links, r, p, s))
  {
    var r0 :| Edges(links, r0);
    r := Reroot(links, r0, root);
    StartInv(links, r, ctrl, p);
    hide *;
    InvSizes(links, r, ctrl, p, Start(links, ctrl, root, p));
    forall run | IsRun(links, ctrl, root, p, run)
      ensures |run| <= 1 + Work(links, Start(links, ctrl, root, p), |links|)
      ensures forall s | s in run :: AtMostOnce(links, r, p, s) && (Stuck(s) ==> Done(links, r, p, s))
    {
      RunStart(links, ctrl, root, p, run);
      RunsEnd(links, r, ctrl, p, run, |run| - 1);
      forall k: nat | k < |run|
        ensures AtMostOnce(links, r, p, run[k]) && (Stuck(run[k]) ==> Done(links, r, p, run[k]))
      {
        RunInv(links, r, ctrl, p, run, k);
        InvOutcome(links, r, ctrl, p, run[k]);
      }
    }
  }

  /** For a speed command: when nothing moves any more, every train has applied it once,
      its direction turned around by the parity of the REVERSE links on its path. */
  lemma SpeedOnce(links: Topology, root: nat, ctrl: int, p: Payload) returns (r: Rooting)
    requires IsTree(links) && FitsIndex(links) && root < |links| && !(0 <= ctrl < |links|)
    requires |p| >= 3 && p[0] & 0x7F == 0x00
    ensures Rooted(links, r) && r.root == root
    ensures forall run, s | IsRun(links, ctrl, root, p, run) && s in run && Stuck(s) ::
      && s.bus == multiset{} && |s.applied| == |links|
      && forall t: nat | t < |links| ::
           |s.applied[t]| == 1 && SpeedCopy(p, s.applied[t][0], t != root, Reversals(links, r, t))
  {
    IsForwarded(p);
    r := ExactlyOnce(links, root, ctrl, p);
    hide Expected, Reached, IsRun, SpeedCopy, Stuck, Work, Rooted, Reversals, IsTree, Forwardable, Command;
    forall t: nat | t < |links|
      ensures Reached(links, r, p, t) && SpeedCopy(p, Expected(links, r, p, t), t != root, Reversals(links, r, t))
    {
      SpeedReachesAll(links, r, p, t);
    }
  }

  /** For a function command: when nothing moves any more, a train has applied it, once,
      if every link on its path has the flag for function 0, or for the other functions,
      and else it has not. The copy has the listener bit, and is the same otherwise. */
  lemma FunctionOnce(links: Topology, root: nat, ctrl: int, p: Payload) returns (r: Rooting)
    requires IsTree(links) && FitsIndex(links) && root < |links| && !(0 <= ctrl < |links|)
    requires |p| >= 6 && p[0] & 0x7F == 0x01
    ensures Rooted(links, r) && r.root == root
    ensures forall run, s | IsRun(links, ctrl, root, p, run) && s in run && Stuck(s) ::
      && s.bus == multiset{} && |s.applied| == |links|
      && forall t: nat | t < |links| ::
           s.applied[t] == if LinkedBy(links, r, t, FnFlag(p)) then [PlainCopy(p, t != root)] else []
  {
    IsForwarded(p);
    r := ExactlyOnce(links, root, ctrl, p);
    hide Expected, Reached, IsRun, PlainCopy, FnFlag, LinkedBy, Stuck, Work, Rooted, IsTree, Forwardable;
    forall t: nat | t < |links|
      ensures Reached(links, r, p, t) <==> LinkedBy(links, r, t, FnFlag(p))
      ensures Expected(links, r, p, t) == PlainCopy(p, t != root)
    {
      PlainReaches(links, r, p, t);
    }
  }

  /** An emergency stop is applied once by every train. */
  lemma StopOnce(links: Topology, root: nat, ctrl: int, p: Payload) returns (r: Rooting)
    requires IsTree(links) && FitsIndex(links) && root < |links| && !(0 <= ctrl < |links|)
    requires p != [] && p[0] & 0x7F == 0x02
    ensures Rooted(links, r) && r.root == root
    ensures forall run, s | IsRun(links, ctrl, root, p, run) && s in run && Stuck(s) ::
      && s.bus == multiset{} && |s.applied| == |links|
      && forall t: nat | t < |links| :: s.applied[t] == [PlainCopy(p, t != root)]
  {
    IsForwarded(p);
    r := ExactlyOnce(links, root, ctrl, p);
    hide Expected, Reached, IsRun, PlainCopy, Stuck, Work, Rooted, IsTree, Forwardable;
    forall t: nat | t < |links|
      ensures Reached(links, r, p, t) && Expected(links, r, p, t) == PlainCopy(p, t != root)
    {
      PlainReaches(links, r, p, t);
    }
  }

  lemma IsForwarded(p: Payload)
    ensures |p| >= 3 && p[0] & 0x7F == 0x00 ==> Forwardable(p) && Command(p) == REQ_SET_SPEED
    ensures |p| >= 6 && p[0] & 0x7F == 0x01 ==> Forwardable(p)
    ensures p != [] && p[0] & 0x7F == 0x02 ==> Forwardable(p)
  {}

  lemma RunStart(links: Topology, ctrl: int, root: nat, p: Payload, run: seq<Net>)
    requires IsRun(links, ctrl, root, p, run)
    ensures run != [] && run[0] == Start(links, ctrl, root, p)
  {}

  lemma InvOutcome(links: Topology, r: Rooting, ctrl: int, p: Payload, s: Net)
    requires Rooted(links, r) && Forwardable(p) && Inv(links, r, ctrl, p, s)
    ensures AtMostOnce(links, r, p, s)
    ensures Stuck(s) ==> Done(links, r, p, s)
  {
    forall t: nat | t < |links| ensures s.applied[t] == [] || s.applied[t] == [Expected(links, r, p, t)] {
      assert TrainOk(links, r, ctrl, p, s, t);
    }
    if Stuck(s) {
      StuckIsIdle(links, s);
      hide Reached, Expected, Rooted;
      forall t: nat | t < |links|
        ensures s.applied[t] == if Reached(links, r, p, t) then [Expected(links, r, p, t)] else []
      {
        Finished(links, r, ctrl, p, s, t);
      }
    }
  }
}
