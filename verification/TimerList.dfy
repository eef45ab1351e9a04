/** The list of pending timers (src/executor/Timer.cpp and Timer.hxx): a list linked
    through the timers themselves, ordered by expiry. */
module TimerList {

  const NONE := 0
  const RESTART := 1
  const DELETE := -1
  const INT64_MAX := 0x7FFF_FFFF_FFFF_FFFF
  const HOUR_NSEC := 3600 * 1_000_000_000

  /** `stamp` numbers the insertions: the timer with the smaller one was inserted first. */
  class Timer {
    var next: Timer?
    var when: int
    var period: int
    var isActive: bool
    var isExpired: bool
    var isCancelled: bool
    ghost var stamp: nat

    const activeTimers: ActiveTimers

    constructor (timers: ActiveTimers)
      requires timers.Valid()
      modifies timers`known
      ensures activeTimers == timers && timers.Valid() && timers.known == old(timers.known) + {this}
      ensures !isActive && !isExpired
    {
      activeTimers := timers;
      next, when, period, isActive, isExpired, isCancelled, stamp := null, 0, 0, false, false, false, 0;
      new;
      timers.known := timers.known + {this};
    }

    ghost predicate Valid()
      reads this, activeTimers, activeTimers.known
    {
      this in activeTimers.known && activeTimers.Valid()
    }

    /** The timer is in the list once, where its expiry time belongs; the others are as they were. */
    ghost predicate IsPlaced(rest: seq<Timer>, at: nat)
      reads this, activeTimers, rest
    {
      at <= |rest| && PlacedAt(rest, at, this) && activeTimers.list == InsertedAt(rest, at, this)
    }

    method Start(period: int, now: int) returns (ghost at: nat)
      requires Valid() && !isActive && !isExpired
      modifies this, activeTimers`activeTimers, activeTimers`list, activeTimers`clock, activeTimers.list`next
      ensures Valid() && when == now + period && this.period == period && !isCancelled
      ensures isActive && !isExpired && IsPlaced(old(activeTimers.list), at)
    {
      hide ActiveTimers.Valid, ActiveTimers.ValidBut, PlacedAt, InsertedAt;
      activeTimers.ValidForOne(this);
      isActive := true;
      isCancelled := false;
      when := now + period;
      this.period := period;
      activeTimers.OneChanged(this);
      at := activeTimers.ScheduleTimer(this);
    }

    /** Puts an inactive or active timer `period` ahead of now. */
    method Restart(now: int) returns (ghost rest: seq<Timer>, ghost at: nat)
      requires Valid()
      modifies this, activeTimers`activeTimers, activeTimers`list, activeTimers`clock, activeTimers.list`next
      ensures Valid() && period == old(period)
      ensures old(isExpired) ==> activeTimers.list == old(activeTimers.list) && when == old(when)
      ensures !old(isExpired) ==>
        && when == now + period && isActive && !isCancelled && IsPlaced(rest, at)
        && if old(isActive) then Removed(old(activeTimers.list), rest, this) else rest == old(activeTimers.list)
    {
      hide ActiveTimers.Valid, ActiveTimers.ValidBut, PlacedAt, InsertedAt;
      rest, at := [], 0;
      activeTimers.ValidForOne(this);
      if isExpired {
        return;
      }
      when := now + period;
      isCancelled := false;
      if isActive {
        activeTimers.OneChanged(this);
        ghost var from;
        from, at := activeTimers.UpdateTimer(this);
        rest := Without(old(activeTimers.list), from);
      } else {
        isActive := true;
        activeTimers.OneChanged(this);
        at := activeTimers.ScheduleTimer(this);
        rest := old(activeTimers.list);
      }
    }

    /** Makes an active timer due at once. */
    method Trigger() returns (ghost rest: seq<Timer>, ghost at: nat)
      requires Valid() && (isExpired || isActive)
      modifies this, activeTimers`activeTimers, activeTimers`list, activeTimers`clock, activeTimers.list`next
      ensures Valid()
      ensures old(isExpired) ==> activeTimers.list == old(activeTimers.list) && when == old(when)
      ensures !old(isExpired) ==>
        when == 2 && period == old(period) && isCancelled && IsPlaced(rest, at) && Removed(old(activeTimers.list), rest, this)
    {
      hide ActiveTimers.Valid, ActiveTimers.ValidBut, PlacedAt, InsertedAt;
      rest, at := [], 0;
      activeTimers.ValidForOne(this);
      if isExpired {
        return;
      }
      isCancelled := true;
      when := 2;
      activeTimers.OneChanged(this);
      ghost var from;
      from, at := activeTimers.UpdateTimer(this);
      rest := Without(old(activeTimers.list), from);
    }

    method Cancel()
      requires Valid() && !isExpired
      modifies this, activeTimers`activeTimers, activeTimers`list, activeTimers.list`next
      ensures Valid() && !isActive && isCancelled && when == INT64_MAX && this !in activeTimers.list
      ensures if old(isActive) then Removed(old(activeTimers.list), activeTimers.list, this)
              else activeTimers.list == old(activeTimers.list)
    {
      activeTimers.ValidForOne(this);
      when := INT64_MAX;
      isCancelled := true;
      activeTimers.OneChanged(this);
      if isActive {
        ghost var from := activeTimers.RemoveTimer(this);
      } else {
        activeTimers.BackInOrder(this);
      }
    }

    /** The executor runs the timer; `newPeriod` is what its timeout() returned. */
    method Run(newPeriod: int, now: int) returns (ghost at: nat)
      requires Valid() && activeTimers.executor != [] && this == activeTimers.executor[0]
      modifies this, activeTimers, activeTimers.list`next
      ensures Valid() && activeTimers.executor == old(activeTimers.executor)[1..] && !isExpired
      ensures newPeriod == 1 ==> when == old(when) + period && period == old(period) && IsPlaced(old(activeTimers.list), at)
      ensures newPeriod > 1 ==> when == now + newPeriod && period == newPeriod && IsPlaced(old(activeTimers.list), at)
      ensures newPeriod <= 0 ==> !isActive && activeTimers.list == old(activeTimers.list)
    {
      hide ActiveTimers.Valid, ActiveTimers.ValidBut, PlacedAt, InsertedAt;
      at := 0;
      activeTimers.DequeueFirst();
      label taken:
      isExpired := false;
      activeTimers.OneChanged@taken(this);
      if newPeriod == RESTART {
        when := when + period;
        isActive := true;
        activeTimers.OneChanged@taken(this);
        at := activeTimers.ScheduleTimer(this);
      } else {
        activeTimers.BackInOrder(this);
        if newPeriod == DELETE {
        } else if newPeriod > 0 {
          at := Start(newPeriod, now);
        }
      }
    }
  }

  /** `rest` is `list` without its member `t`. */
  ghost predicate Removed(list: seq<Timer>, rest: seq<Timer>, t: Timer) {
    exists i: nat | i < |list| :: list[i] == t && rest == Without(list, i)
  }

  ghost predicate Before(a: Timer, b: Timer)
    reads a, b
  {
    a.when < b.when || (a.when == b.when && a.stamp < b.stamp)
  }

  /** The timers of `list`, in this order, linked from `head` on. */
  ghost predicate Linked(head: Timer?, list: seq<Timer>)
    reads list
  {
    && (if list == [] then head == null else head == list[0])
    && (forall i {:trigger list[i].next} | 0 <= i < |list| ::
          list[i].next == if i + 1 < |list| then list[i + 1] else null)
    && (forall i, j | 0 <= i < j < |list| :: list[i] != list[j])
  }

  ghost predicate Ordered(list: seq<Timer>)
    reads list
  {
    forall i, j | 0 <= i < j < |list| :: Before(list[i], list[j])
  }

  function Without(list: seq<Timer>, i: nat): (r: seq<Timer>)
    requires i < |list|
  {
    list[..i] + list[i + 1..]
  }

  function InsertedAt(list: seq<Timer>, i: nat, t: Timer): seq<Timer>
    requires i <= |list|
  {
    list[..i] + [t] + list[i..]
  }

  /** A timer is active while it is in the list, and expired while it waits at the executor. */
  ghost predicate FlagsOk(t: Timer, inList: bool, inExecutor: bool)
    reads t
  {
    && (t.isActive <==> inList) && (t.isExpired <==> inExecutor) && !(inList && inExecutor)
    && (!inList ==> t.next == null)
  }

  class ActiveTimers {
    var activeTimers: Timer?
    /** The timers given to the executor, in order. */
    var executor: seq<Timer>
    ghost var list: seq<Timer>
    ghost var clock: nat
    /** All timers that belong to this list or were or may be in it. */
    ghost var known: set<Timer>

    ghost predicate Valid()
      reads this, known
    {
      && (forall t | t in list :: t in known) && (forall t | t in executor :: t in known)
      && Linked(activeTimers, list) && Ordered(list)
      && (forall t | t in list :: t.stamp < clock)
      && (forall t | t in known :: FlagsOk(t, t in list, t in executor))
      && forall i, j | 0 <= i < j < |executor| :: executor[i] != executor[j]
    }

    /** Valid, but for the flags, the stamp and the place in the order of one timer. */
    ghost predicate ValidBut(timer: Timer)
      reads this, known
    {
      && timer in known && (forall t | t in list :: t in known) && (forall t | t in executor :: t in known)
      && Linked(activeTimers, list) && OrderedExcept(list, timer)
      && (forall t | t in list && t != timer :: t.stamp < clock)
      && (forall t | t in known && t != timer :: FlagsOk(t, t in list, t in executor))
      && forall i, j | 0 <= i < j < |executor| :: executor[i] != executor[j]
    }

    lemma ValidForOne(timer: Timer)
      requires Valid() && timer in known
      ensures ValidBut(timer) && FlagsOk(timer, timer in list, timer in executor)
    {}

    /** Whatever was done to `timer` but to its link, the others are still valid. */
    twostate lemma OneChanged(timer: Timer)
      requires old(ValidBut(timer)) && unchanged(this) && timer.next == old(timer.next)
      requires forall x | x in known && x != timer :: unchanged(x)
      ensures ValidBut(timer)
    {
      forall i | 0 <= i < |list| ensures list[i].next == if i + 1 < |list| then list[i + 1] else null {
        assert list[i] in list && list[i] in known;
        assert old(list[i].next) == if i + 1 < |list| then list[i + 1] else null;
      }
      forall i, j | 0 <= i < j < |list| && list[i] != timer && list[j] != timer ensures Before(list[i], list[j]) {
        assert list[i] in list && list[i] in known && list[j] in list && list[j] in known;
        assert old(Before(list[i], list[j]));
      }
      forall t | t in known && t != timer ensures FlagsOk(t, t in list, t in executor) {
        assert old(FlagsOk(t, t in list, t in executor));
      }
    }

    lemma BackInOrder(timer: Timer)
      requires ValidBut(timer) && timer !in list && timer !in executor
      requires !timer.isActive && !timer.isExpired && timer.next == null
      ensures Valid()
    {
      OrderedOthers(list, timer);
    }

    /** The executor takes up its first timer. */
    method DequeueFirst()
      requires Valid() && executor != []
      modifies `executor
      ensures executor == old(executor)[1..]
      ensures var t := old(executor)[0];
        ValidBut(t) && t !in executor && t !in list && t.next == null && !t.isActive
    {
      ghost var t := executor[0];
      ValidForOne(t);
      assert executor == [t] + executor[1..];
      executor := executor[1..];
      forall x | x in known && x != t ensures FlagsOk(x, x in list, x in executor) {
        assert old(FlagsOk(x, x in list, x in executor));
      }
    }

    constructor ()
      ensures Valid() && list == [] && executor == [] && known == {}
    {
      activeTimers, executor, list, clock, known := null, [], [], 0, {};
    }

    /** The last timer that expires no later than `when`, and the one after it. */
    method FindPlace(when: int) returns (last: Timer?, currentTimer: Timer?, ghost at: nat)
      requires Linked(activeTimers, list) && Ordered(list)
      ensures Around(list, at, last, currentTimer)
      ensures forall i | 0 <= i < |list| :: i < at <==> list[i].when <= when
    {
      last := null;
      currentTimer := activeTimers;
      at := 0;
      while currentTimer != null && currentTimer.when <= when
        invariant Around(list, at, last, currentTimer)
        invariant forall i | 0 <= i < at :: list[i].when <= when
        decreases |list| - at
      {
        assert list[at].next == if at + 1 < |list| then list[at + 1] else null;
        last := currentTimer;
        currentTimer := last.next;
        at := at + 1;
      }
      if at < |list| {
        forall i | at < i < |list| ensures list[i].when > when {
          assert Before(list[at], list[i]);
        }
      }
    }

    /** Links `timer` in between two neighbours. */
    method Splice(timer: Timer, last: Timer?, currentTimer: Timer?, ghost at: nat)
      requires Linked(activeTimers, list) && Around(list, at, last, currentTimer) && timer !in list
      requires Ordered(InsertedAt(list, at, timer))
      modifies `activeTimers, `list, list`next, timer`next
      ensures list == InsertedAt(old(list), at, timer) && Linked(activeTimers, list) && Ordered(list)
    {
      ghost var was := list;
      timer.next := currentTimer;
      if last == null {
        activeTimers := timer;
      } else {
        last.next := timer;
      }
      list := InsertedAt(list, at, timer);
      forall i | 0 <= i < |list|
        ensures list[i].next == if i + 1 < |list| then list[i + 1] else null
      {
        if i < at {
          assert list[i] == was[i] && old(was[i].next) == if i + 1 < |was| then was[i + 1] else null;
        } else if i > at {
          assert list[i] == was[i - 1] && old(was[i - 1].next) == if i < |was| then was[i] else null;
        }
      }
      OrderedFrame(list);
    }

    /** Inserts behind all timers that expire no later. */
    method InsertLocked(timer: Timer) returns (ghost at: nat)
      requires Linked(activeTimers, list) && Ordered(list) && forall t | t in list :: t.stamp < clock
      requires timer !in list && timer.next == null
      modifies `activeTimers, `list, `clock, list`next, timer`next, timer`stamp
      ensures at <= |old(list)| && list == InsertedAt(old(list), at, timer) && Linked(activeTimers, list)
      ensures clock == old(clock) + 1 && timer.stamp == old(clock)
      ensures Ordered(list)
      ensures PlacedAt(old(list), at, timer) && forall t :: t in list <==> t in old(list) || t == timer
    {
      hide Linked, Ordered;
      var last, currentTimer;
      last, currentTimer, at := FindPlace(timer.when);
      timer.stamp := clock;
      clock := clock + 1;
      InsertOrdered(list, at, timer);
      InsertedMembers(list, at, timer);
      Splice(timer, last, currentTimer, at);
    }

    /** Takes a timer out, wherever it is. */
    method RemoveLocked(timer: Timer) returns (ghost at: nat)
      requires Linked(activeTimers, list) && timer in list && OrderedExcept(list, timer)
      modifies `activeTimers, `list, list`next
      ensures at < |old(list)| && old(list)[at] == timer && list == Without(old(list), at)
      ensures Linked(activeTimers, list) && Ordered(list) && timer.next == null
      ensures forall t :: t in list <==> t in old(list) && t != timer
    {
      ghost var was := list;
      var last: Timer? := null;
      var current := activeTimers;
      at := 0;
      while current != null && current != timer
        invariant Around(list, at, last, current)
        invariant timer !in list[..at]
        decreases |list| - at
      {
        assert list[at].next == if at + 1 < |list| then list[at + 1] else null;
        last := current;
        current := current.next;
        at := at + 1;
      }
      assert list[..|list|] == list;
      assert list[at].next == if at + 1 < |list| then list[at + 1] else null;
      OrderedWithout(list, at);
      WithoutMembers(list, at);
      if last == null {
        activeTimers := timer.next;
      } else {
        last.next := timer.next;
      }
      timer.next := null;
      list := Without(list, at);
      forall i | 0 <= i < |list|
        ensures list[i].next == if i + 1 < |list| then list[i + 1] else null
      {
        if i < at {
          assert list[i] == was[i] && old(was[i].next) == if i + 1 < |was| then was[i + 1] else null;
        } else {
          assert list[i] == was[i + 1] && old(was[i + 1].next) == if i + 2 < |was| then was[i + 2] else null;
        }
      }
      OrderedFrame(list);
    }

    method ScheduleTimer(timer: Timer) returns (ghost at: nat)
      requires ValidBut(timer) && timer !in list && timer !in executor
      requires timer.isActive && !timer.isExpired && timer.next == null
      modifies `activeTimers, `list, `clock, list`next, timer`next, timer`stamp
      ensures Valid() && at <= |old(list)| && list == InsertedAt(old(list), at, timer)
      ensures PlacedAt(old(list), at, timer)
    {
      hide Linked, Ordered, OrderedExcept;
      OrderedOthers(list, timer);
      at := InsertLocked(timer);
    }

    /** Moves a timer to its place after its expiry time was changed. */
    method UpdateTimer(timer: Timer) returns (ghost from: nat, ghost at: nat)
      requires ValidBut(timer) && timer in list && timer !in executor && timer.isActive && !timer.isExpired
      modifies `activeTimers, `list, `clock, list`next, timer`stamp
      ensures Valid() && from < |old(list)| && old(list)[from] == timer
      ensures at < |old(list)| && list == InsertedAt(Without(old(list), from), at, timer)
      ensures PlacedAt(Without(old(list), from), at, timer)
    {
      hide Linked, Ordered, OrderedExcept, PlacedAt, InsertedAt;
      from := RemoveLocked(timer);
      assert forall t | t in list :: t in old(list);
      assert forall i | 0 <= i < |list| :: list[i] in old(list);
      at := InsertLocked(timer);
    }

    method RemoveTimer(timer: Timer) returns (ghost from: nat)
      requires ValidBut(timer) && timer in list && timer !in executor && timer.isActive && !timer.isExpired
      modifies `activeTimers, `list, list`next, timer`isActive
      ensures Valid() && from < |old(list)| && old(list)[from] == timer && list == Without(old(list), from)
    {
      hide Linked, Ordered, OrderedExcept, Without;
      from := RemoveLocked(timer);
      timer.isActive := false;
    }

    /** Releases the timers that are due, and tells how long to sleep. */
    method GetNextTimeout(now: int) returns (ret: int, ghost due: nat)
      requires Valid()
      modifies this, list`next, list`isActive, list`isExpired
      ensures Valid() && known == old(known) && clock == old(clock)
      ensures due <= |old(list)| && list == old(list)[due..] && executor == old(executor) + old(list)[..due]
      ensures forall i | 0 <= i < |old(list)| :: i < due <==> old(list)[i].when <= now
      ensures ret == if due > 0 then 0 else if list == [] then 3_600_000_000_000 else list[0].when - now
    {
      hide Valid;
      HeadIsFirst();
      var currentTimer := activeTimers;
      var foundTimer := false;
      due := 0;
      ghost var was := list;
      while currentTimer != null && currentTimer.when <= now
        invariant Valid() && known == old(known) && clock == old(clock)
        invariant currentTimer == activeTimers == if list == [] then null else list[0]
        invariant due <= |was| && list == was[due..] && executor == old(executor) + was[..due]
        invariant forall i | 0 <= i < due :: was[i].when <= now
        invariant foundTimer <==> due > 0
        decreases |was| - due
      {
        foundTimer := true;
        ReleaseFirst();
        HeadIsFirst();
        currentTimer := activeTimers;
        due := due + 1;
      }
      HeadIsFirst();
      forall i | due <= i < |was| ensures was[due].when <= was[i].when {
        assert list[0] == was[due] && list[i - due] == was[i];
      }
      if foundTimer {
        return 0, due;
      } else if currentTimer != null {
        ret := currentTimer.when - now;
      } else {
        ret := HOUR_NSEC;
      }
    }

    lemma HeadIsFirst()
      requires Valid()
      ensures activeTimers == if list == [] then null else list[0]
      ensures forall i | 0 <= i < |list| :: list[0].when <= list[i].when
    {
      forall i | 0 < i < |list| ensures list[0].when <= list[i].when {
        assert Before(list[0], list[i]);
      }
    }

    /** One turn of that loop: the first timer goes to the executor. */
    method ReleaseFirst()
      requires Valid() && list != []
      modifies this, list`next, list`isActive, list`isExpired
      ensures Valid() && known == old(known) && clock == old(clock)
      ensures list == old(list)[1..] && executor == old(executor) + [old(list)[0]]
    {
      ghost var was := list;
      var currentTimer := activeTimers;
      assert currentTimer in was && currentTimer in known;
      assert FlagsOk(currentTimer, true, currentTimer in executor);
      assert was[0].next == if 1 < |was| then was[1] else null;
      activeTimers := currentTimer.next;
      currentTimer.next := null;
      currentTimer.isActive := false;
      currentTimer.isExpired := true;
      executor := executor + [currentTimer];
      list := list[1..];
      forall i | 0 <= i < |list|
        ensures list[i].next == if i + 1 < |list| then list[i + 1] else null
      {
        assert list[i] == was[i + 1] && old(was[i + 1].next) == if i + 2 < |was| then was[i + 2] else null;
      }
      forall i, j | 0 <= i < j < |list| ensures Before(list[i], list[j]) {
        assert old(Before(was[i + 1], was[j + 1]));
      }
      forall t | t in known ensures FlagsOk(t, t in list, t in executor) {
        assert old(FlagsOk(t, t in list, t in executor));
        assert t in was <==> t == was[0] || t in list;
      }
    }
  }

  /** Behind all timers that expire no later, in front of all others. */
  ghost predicate PlacedAt(list: seq<Timer>, at: nat, timer: Timer)
    reads list, timer
  {
    at <= |list| && forall i | 0 <= i < |list| :: i < at <==> list[i].when <= timer.when
  }

  lemma OrderedOthers(list: seq<Timer>, timer: Timer)
    requires OrderedExcept(list, timer) && timer !in list
    ensures Ordered(list)
  {}

  lemma InsertedMembers(list: seq<Timer>, at: nat, timer: Timer)
    requires at <= |list|
    ensures forall t :: t in InsertedAt(list, at, timer) <==> t in list || t == timer
  {
    assert list == list[..at] + list[at..];
  }

  lemma WithoutMembers(list: seq<Timer>, at: nat)
    requires at < |list| && forall i, j | 0 <= i < j < |list| :: list[i] != list[j]
    ensures forall t :: t in Without(list, at) <==> t in list && t != list[at]
  {
    assert list == list[..at] + [list[at]] + list[at + 1..];
  }

  /** All pairs are in order but for those with `timer`. */
  ghost predicate OrderedExcept(list: seq<Timer>, timer: Timer)
    reads list
  {
    forall i, j | 0 <= i < j < |list| && list[i] != timer && list[j] != timer :: Before(list[i], list[j])
  }

  lemma OrderedWithout(list: seq<Timer>, k: nat)
    requires k < |list| && OrderedExcept(list, list[k])
    requires forall i, j | 0 <= i < j < |list| :: list[i] != list[j]
    ensures Ordered(Without(list, k))
  {
    var r := Without(list, k);
    forall i, j | 0 <= i < j < |r| ensures Before(r[i], r[j]) {
      var a, b := if i < k then i else i + 1, if j < k then j else j + 1;
      assert r[i] == list[a] && r[j] == list[b];
      assert list[a] != list[k] && list[b] != list[k];
    }
  }

  /** `last` and `current` are the neighbours of position `at`. */
  ghost predicate Around(list: seq<Timer>, at: nat, last: Timer?, current: Timer?) {
    && at <= |list| && current == (if at < |list| then list[at] else null)
    && if at == 0 then last == null else last == list[at - 1]
  }

  lemma InsertOrdered(list: seq<Timer>, at: nat, timer: Timer)
    requires Ordered(list) && at <= |list|
    requires forall t | t in list :: t.stamp < timer.stamp
    requires forall i | 0 <= i < |list| :: i < at <==> list[i].when <= timer.when
    ensures Ordered(InsertedAt(list, at, timer))
  {
    var r := InsertedAt(list, at, timer);
    forall i, j | 0 <= i < j < |r| ensures Before(r[i], r[j]) {
      if i != at && j != at {
        var a, b := if i < at then i else i - 1, if j < at then j else j - 1;
        assert r[i] == list[a] && r[j] == list[b] && Before(list[a], list[b]);
      } else {
        assert j == at ==> r[i] == list[i] && list[i] in list;
        assert i == at ==> r[j] == list[j - 1];
      }
    }
  }

  /** Ordered looks at expiry times and stamps only. */
  twostate lemma OrderedFrame(list: seq<Timer>)
    requires old(Ordered(list))
    requires forall t | t in list :: old(t.when) == t.when && old(t.stamp) == t.stamp
    ensures Ordered(list)
  {
    forall i, j | 0 <= i < j < |list| ensures Before(list[i], list[j]) {
      assert old(Before(list[i], list[j]));
    }
  }
}
