/** The alarm of the fast-clock server (BroadcastTimeServerAlarm in
    src/openlcb/BroadcastTimeServer.cpp): when does the clock have to wake up next? */
module FastClock {
  import opened Bits

  const MINUTES_PER_DAY := 1440

  function Abs(x: int): nat { if x < 0 then -x else x }

  /** The minute that comes `j` after minute `m`, as the clock runs. */
  function Ahead(m: int, rate: int, j: int): int { if rate > 0 then m + j else m - j }

  /** The start of minute `m`, counted from time 0, for a clock that comes from the other side. */
  function MinuteStart(m: int, rate: int): int { if rate > 0 then 60 * m else 60 * m + 59 }

  /** Is minute `m` the first of a day, as the clock runs? */
  predicate IsRollover(m: int, rate: int) {
    m % MINUTES_PER_DAY == if rate > 0 then 0 else MINUTES_PER_DAY - 1
  }

  /** `a & (1 << i)`, in words wide enough for all minutes of an hour. */
  predicate HasBit(a: nat, i: nat) { And(a, Pow2(i)) != 0 }

  function WithBit(a: nat, i: nat): nat { Or(a, Pow2(i)) }

  lemma {:induction false} SetBit(a: nat, i: nat, j: nat)
    ensures HasBit(WithBit(a, i), j) <==> HasBit(a, j) || i == j
  {
    if i > 0 && j > 0 {
      SetBit(a / 2, i - 1, j - 1);
      OrDouble(a, Pow2(i - 1));
      BitDouble(a, j);
      BitDouble(WithBit(a, i), j);
    } else if i > 0 {
      OrDouble(a, Pow2(i - 1));
      LowestBit(a);
      LowestBit(WithBit(a, i));
    } else {
      OrOne(a);
      if j > 0 {
        BitDouble(a, j);
        BitDouble(WithBit(a, 0), j);
      } else {
        LowestBit(WithBit(a, 0));
      }
    }
  }

  lemma OrDouble(a: nat, b: nat)
    requires b > 0
    ensures Or(a, 2 * b) == 2 * Or(a / 2, b) + a % 2
  {}

  lemma OrOne(a: nat)
    ensures Pow2(0) == 1 && Or(a, 1) == a / 2 * 2 + 1
  {
    if a > 0 { assert Or(a, 1) == 2 * Or(a / 2, 0) + 1; }
  }

  lemma BitDouble(a: nat, j: nat)
    requires j > 0
    ensures HasBit(a, j) <==> HasBit(a / 2, j - 1)
  {
    AndDouble(a, Pow2(j - 1));
  }

  lemma LowestBit(a: nat)
    ensures HasBit(a, 0) <==> a % 2 == 1
  {
    AndLowMask(a, 1);
    assert Pow2(0) == 1 && Pow2(1) == 2;
  }

  class BroadcastTimeServerAlarm {
    const activeMinutes: array<nat>

    ghost predicate Valid()
      reads this
    {
      activeMinutes.Length == 24
    }

    constructor ()
      ensures Valid() && fresh(activeMinutes) && forall h, m | 0 <= h < 24 && 0 <= m < 60 :: !IsActive(h, m)
    {
      activeMinutes := new nat[24](_ => 0);
      new;
      forall m: nat | m < 60 ensures !HasBit(0, m) {
        NoBit(m);
      }
      hide HasBit;
    }

    predicate IsActive(hour: nat, min: nat)
      requires Valid() && hour < 24 && min < 60
      reads this, activeMinutes
    {
      HasBit(activeMinutes[hour], min)
    }

    /** Subscribes to a minute of the day; times that do not exist are ignored. */
    method Subscribe(hour: int, min: int) returns (changed: bool)
      requires Valid()
      modifies activeMinutes
      ensures changed <==> 0 <= hour < 24 && 0 <= min < 60 && !old(IsActive(hour, min))
      ensures forall h, m | 0 <= h < 24 && 0 <= m < 60 ::
        IsActive(h, m) <==> old(IsActive(h, m)) || (h == hour && m == min)
    {
      hide HasBit, WithBit;
      changed := false;
      if 0 <= hour <= 23 && 0 <= min <= 59 {
        if !HasBit(activeMinutes[hour], min) {
          ghost var was := activeMinutes[hour];
          activeMinutes[hour] := WithBit(activeMinutes[hour], min);
          changed := true;
          forall m: nat | m < 60 ensures HasBit(activeMinutes[hour], m) <==> HasBit(was, m) || m == min {
            SetBit(was, min, m);
          }
        }
      }
    }

    /** A minute for which the clock has to wake up: subscribed, or the first of a day. */
    predicate Stops(m: int, rate: int)
      requires Valid()
      reads this, activeMinutes
    {
      IsRollover(m, rate) || IsActive(m % MINUTES_PER_DAY / 60, m % MINUTES_PER_DAY % 60)
    }

    /** Steps to the next hour and minute; `m` is the minute now. */
    static method NextMinute(rate: int, hour: int, min: int, ghost m: int)
      returns (nextHour: int, nextMin: int, rollover: bool)
      requires ClockShows(m, hour, min)
      ensures rate != 0 ==> ClockShows(Ahead(m, rate, 1), nextHour, nextMin)
      ensures rate != 0 ==> (rollover <==> IsRollover(Ahead(m, rate, 1), rate))
      ensures rate == 0 ==> nextHour == hour && nextMin == min && !rollover
    {
      NextShows(m, hour, min);
      nextHour, nextMin, rollover := hour, min, false;
      if rate > 0 {
        nextMin := nextMin + 1;
        if nextMin == 60 {
          nextMin := 0;
          nextHour := nextHour + 1;
          if nextHour == 24 {
            nextHour := 0;
            rollover := true;
          }
        }
      } else if rate < 0 {
        nextMin := nextMin - 1;
        if nextMin < 0 {
          nextMin := 59;
          nextHour := nextHour - 1;
          if nextHour < 0 {
            nextHour := 23;
            rollover := true;
          }
        }
      }
    }

    /** The time of the next alarm, `k` minutes from now in the running direction: the first
        minute for which the clock has to wake up, or, if none of the next |rate| minutes is
        one, the minute after these. A clock that stands still is taken to run backwards
        by one minute, or two. */
    method NextActiveMinute(now: int, rate: int, tmHour: int, tmMin: int, tmSec: int) returns (seconds: int, ghost k: nat)
      requires Valid() && ClockShows(now / 60, tmHour, tmMin) && tmSec == now % 60
      ensures rate != 0 ==>
        && 1 <= k <= Abs(rate) + 1 && seconds == MinuteStart(Ahead(now / 60, rate, k), rate)
        && (forall j | 0 < j < k :: !Stops(Ahead(now / 60, rate, j), rate))
        && (k <= Abs(rate) ==> Stops(Ahead(now / 60, rate, k), rate))
      ensures rate == 0 ==> seconds == now / 60 * 60 - (if IsActive(tmHour, tmMin) then 1 else 61)
      ensures if rate > 0 then now < seconds else seconds < now
    {
      hide HasBit, IsRollover;
      ghost var here := now / 60;
      var hour, min, ratePer4 := tmHour, tmMin, Abs(rate);
      seconds := now;
      if rate > 0 {
        seconds := seconds + 60 - tmSec;
      } else {
        seconds := seconds - (tmSec + 1);
      }
      k := 1;
      while true
        invariant k >= 1 && ratePer4 == Abs(rate) - (k - 1)
        invariant ClockShows(Ahead(here, rate, k - 1), hour, min)
        invariant rate != 0 ==> k <= Abs(rate) && seconds == MinuteStart(Ahead(here, rate, k), rate)
        invariant rate != 0 ==> forall j | 0 < j < k :: !Stops(Ahead(here, rate, j), rate)
        invariant rate == 0 ==> k == 1 && hour == tmHour && min == tmMin && seconds == here * 60 - 1
        decreases ratePer4
      {
        var rollover;
        hour, min, rollover := NextMinute(rate, hour, min, Ahead(here, rate, k - 1));
        if rate != 0 { ShownMinute(Ahead(here, rate, k), hour, min); }
        if rollover {
          break;
        }
        if HasBit(activeMinutes[hour], min) {
          break;
        }
        seconds := seconds + if rate > 0 then 60 else -60;
        k := k + 1;
        if rate != 0 { WithinADay(here, rate, k); }
        if !(hour != tmHour || min != tmMin) {
          break;
        }
        ratePer4 := ratePer4 - 1;
        if ratePer4 <= 0 {
          break;
        }
      }
    }

    /** Between two rollovers the clock does not show the same twice. */
    lemma WithinADay(here: int, rate: int, k: nat)
      requires Valid() && rate != 0 && k > 1
      requires forall j | 0 < j < k :: !Stops(Ahead(here, rate, j), rate)
      ensures (Ahead(here, rate, k - 1)) % MINUTES_PER_DAY != here % MINUTES_PER_DAY
    {
      var j := ToRollover(here, rate, k);
      assert j < k ==> !Stops(Ahead(here, rate, j), rate);
    }

    /** The same, in terms of time: no minute that counts begins before the alarm. */
    lemma NothingMissed(now: int, rate: int, k: nat, m: int)
      requires Valid() && rate != 0 && k > 0
      requires forall j | 0 < j < k :: !Stops(Ahead(now / 60, rate, j), rate)
      requires var start, end := MinuteStart(m, rate), MinuteStart(Ahead(now / 60, rate, k), rate);
        if rate > 0 then now < start < end else end < start < now
      ensures !Stops(m, rate)
    {
      var j := if rate > 0 then m - now / 60 else now / 60 - m;
      assert 0 < j < k && m == Ahead(now / 60, rate, j);
    }
  }

  lemma NoBit(i: nat)
    ensures !HasBit(0, i)
  {}

  // ---------------------------------------------------------------------
  // The next minute

  /** Hour and minute, and the number of the minute since time 0 that they belong to. */
  predicate ClockShows(m: int, hour: int, min: int) {
    0 <= hour < 24 && 0 <= min < 60 && m % MINUTES_PER_DAY == 60 * hour + min
  }

  /** The next rollover is `j` minutes ahead, and up to it the minute of the day changes. */
  lemma ToRollover(here: int, rate: int, k: nat) returns (j: nat)
    requires rate != 0 && k > 1
    ensures 0 < j && IsRollover(Ahead(here, rate, j), rate)
    ensures k <= j ==> Ahead(here, rate, k - 1) % MINUTES_PER_DAY != here % MINUTES_PER_DAY
  {
    var d, q := here % MINUTES_PER_DAY, here / MINUTES_PER_DAY;
    assert here == q * MINUTES_PER_DAY + d;
    if rate > 0 {
      j := MINUTES_PER_DAY - d;
      assert here + j == (q + 1) * MINUTES_PER_DAY;
      if k <= j { assert here + (k - 1) == q * MINUTES_PER_DAY + (d + k - 1); }
    } else {
      j := d + 1;
      assert here - j == (q - 1) * MINUTES_PER_DAY + (MINUTES_PER_DAY - 1);
      if k <= j { assert here - (k - 1) == q * MINUTES_PER_DAY + (d - (k - 1)); }
    }
  }

  lemma ShownMinute(m: int, hour: int, min: int)
    requires ClockShows(m, hour, min)
    ensures m % MINUTES_PER_DAY / 60 == hour && m % MINUTES_PER_DAY % 60 == min
  {}

  lemma NextShows(m: int, hour: int, min: int)
    requires ClockShows(m, hour, min)
    ensures min < 59 ==> ClockShows(m + 1, hour, min + 1) && !IsRollover(m + 1, 1)
    ensures min == 59 && hour < 23 ==> ClockShows(m + 1, hour + 1, 0) && !IsRollover(m + 1, 1)
    ensures min == 59 && hour == 23 ==> ClockShows(m + 1, 0, 0) && IsRollover(m + 1, 1)
    ensures min > 0 ==> ClockShows(m - 1, hour, min - 1) && !IsRollover(m - 1, -1)
    ensures min == 0 && hour > 0 ==> ClockShows(m - 1, hour - 1, 59) && !IsRollover(m - 1, -1)
    ensures min == 0 && hour == 0 ==> ClockShows(m - 1, 23, 59) && IsRollover(m - 1, -1)
  {}
}
