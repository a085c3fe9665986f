/** The flush timer on a wrapping 32-bit millisecond clock. */
module Timer {
  import opened Machine
  import opened Wire

  const INTERVAL_DEF := 100
  const SLAP_LIMIT := 10_000

  datatype Clock = Clock(current: u32, tsFlush: u32, updated: bool)

  /** One call of `update`: the new timer, and whether a flush happens now. */
  function Advance(c: Clock, interval: u32, now: u32): (Clock, bool) {
    var start := if c.updated then c.tsFlush else now;
    var diff := TimeDiff(now, start);
    var reset := diff >= SLAP_LIMIT || diff < -SLAP_LIMIT;
    var base := if reset then now else start;
    if reset || diff >= 0 then (Clock(now, NextFlush(base, now, interval), true), true)
    else (Clock(now, base, true), false)
  }

  function NextFlush(base: u32, now: u32, interval: u32): u32 {
    var next := W32(base + interval);
    if TimeDiff(now, next) >= 0 then W32(now + interval) else next
  }

  /** The least time left until a retransmission, or the largest 32-bit number. */
  function Soonest(buf: seq<Segment>, now: u32): int {
    if buf == [] then U32_LIMIT - 1 else Min(TimeDiff(buf[0].resendts, now), Soonest(buf[1..], now))
  }

  lemma {:induction false} SoonestMeaning(buf: seq<Segment>, now: u32)
    ensures forall i :: 0 <= i < |buf| ==> Soonest(buf, now) <= TimeDiff(buf[i].resendts, now)
    ensures Soonest(buf, now) == U32_LIMIT - 1
         || exists i :: 0 <= i < |buf| && Soonest(buf, now) == TimeDiff(buf[i].resendts, now)
  {
    if buf != [] {
      SoonestMeaning(buf[1..], now);
      assert forall i :: 1 <= i < |buf| ==> buf[i] == buf[1..][i - 1];
      var s := Soonest(buf[1..], now);
      if s != U32_LIMIT - 1 {
        var i :| 0 <= i < |buf[1..]| && s == TimeDiff(buf[1..][i].resendts, now);
        assert buf[i + 1].resendts == buf[1..][i].resendts;
      }
      assert Soonest(buf, now) == s || Soonest(buf, now) == TimeDiff(buf[0].resendts, now);
    }
  }

  /** How long the caller may wait before the next `update`. */
  function Check(c: Clock, buf: seq<Segment>, interval: u32, now: u32): nat {
    var diff := TimeDiff(now, c.tsFlush);
    if !c.updated || diff >= SLAP_LIMIT || diff < -SLAP_LIMIT || diff >= 0 then 0
    else if Soonest(buf, now) <= 0 then 0
    else Min(Min(Soonest(buf, now), TimeDiff(c.tsFlush, now)), interval)
  }

  lemma Opposite(x: u32, y: u32)
    requires TimeDiff(x, y) > -I32_LIMIT
    ensures TimeDiff(y, x) == -TimeDiff(x, y)
  {
    TimeDiffIsSignedDistance(x, y, TimeDiff(x, y));
    TimeDiffIsSignedDistance(y, x, -TimeDiff(x, y));
  }

  /** When `check` grants `d` milliseconds, no `update` before they are over flushes, and no retransmission
      falls due before they are over. */
  lemma WaitingIsSafe(c: Clock, buf: seq<Segment>, interval: u32, now: u32, k: nat)
    requires k < Check(c, buf, interval, now)
    ensures !Advance(c, interval, W32(now + k)).1
    ensures forall i :: 0 <= i < |buf| ==> TimeDiff(W32(now + k), buf[i].resendts) < 0
    ensures Check(c, buf, interval, now) <= interval
  {
    hide Advance;
    WaitingDoesNotFlush(c, buf, interval, now, k);
    forall i | 0 <= i < |buf| ensures TimeDiff(W32(now + k), buf[i].resendts) < 0 {
      SoonestMeaning(buf, now);
      Opposite(buf[i].resendts, now);
      TimeDiffShift(now, buf[i].resendts, k);
    }
  }

  lemma WaitingDoesNotFlush(c: Clock, buf: seq<Segment>, interval: u32, now: u32, k: nat)
    requires k < Check(c, buf, interval, now)
    ensures !Advance(c, interval, W32(now + k)).1
  {
    Opposite(now, c.tsFlush);
    TimeDiffShift(now, c.tsFlush, k);
  }

  /** `check` asks for an immediate update exactly when one would flush or a retransmission is due. */
  lemma CheckIsZero(c: Clock, buf: seq<Segment>, interval: u32, now: u32)
    requires interval > 0
    ensures Check(c, buf, interval, now) == 0 <==>
            || Advance(c, interval, now).1
            || exists i :: 0 <= i < |buf| && TimeDiff(buf[i].resendts, now) <= 0
  {
    SoonestMeaning(buf, now);
    if TimeDiff(now, c.tsFlush) > -I32_LIMIT {
      Opposite(now, c.tsFlush);
    }
  }

  /** The grant is not needlessly short: unless it is a whole interval, a flush or a retransmission is due when
      it is over. */
  lemma WaitIsTight(c: Clock, buf: seq<Segment>, interval: u32, now: u32)
    requires 0 < Check(c, buf, interval, now) < interval
    ensures var due := W32(now + Check(c, buf, interval, now));
            || Advance(c, interval, due).1
            || exists i :: 0 <= i < |buf| && TimeDiff(due, buf[i].resendts) == 0
  {
    var d := Check(c, buf, interval, now);
    Opposite(now, c.tsFlush);
    SoonestMeaning(buf, now);
    if d == TimeDiff(c.tsFlush, now) {
      TimeDiffShift(now, c.tsFlush, d);
    } else {
      var i :| 0 <= i < |buf| && d == TimeDiff(buf[i].resendts, now);
      Opposite(buf[i].resendts, now);
      TimeDiffShift(now, buf[i].resendts, d);
    }
  }

  // ---------- Runs

  /** The timer is armed for a moment at most one interval ahead. */
  predicate Armed(c: Clock, interval: u32) {
    c.updated && 0 < TimeDiff(c.tsFlush, c.current) <= interval
  }

  lemma NextFlushIsAhead(base: u32, now: u32, interval: u32)
    requires 0 < interval <= 5000 && 0 <= TimeDiff(now, base) < SLAP_LIMIT
    ensures 0 < TimeDiff(NextFlush(base, now, interval), now) <= interval
  {
    BothDistances(base, now, interval);
    Ahead(now, interval);
  }

  lemma Ahead(now: u32, interval: u32)
    requires interval <= 5000
    ensures TimeDiff(W32(now + interval), now) == interval
  {
  }

  lemma BothDistances(base: u32, now: u32, interval: u32)
    requires interval <= 5000 && 0 <= TimeDiff(now, base) < SLAP_LIMIT
    ensures TimeDiff(now, W32(base + interval)) == TimeDiff(now, base) - interval
    ensures TimeDiff(W32(base + interval), now) == interval - TimeDiff(now, base)
  {
    Backward(base, now, interval);
    Opposite(now, W32(base + interval));
  }

  lemma Backward(base: u32, now: u32, interval: u32)
    requires interval <= 5000 && 0 <= TimeDiff(now, base) < SLAP_LIMIT
    ensures TimeDiff(now, W32(base + interval)) == TimeDiff(now, base) - interval
  {
    var d := TimeDiff(now, base);
    TimeDiffIsSignedDistance(now, base, d);
    AddWrapped(base + interval, d - interval);
    TimeDiffIsSignedDistance(now, W32(base + interval), d - interval);
  }

  /** An update that finds time moved forward by `k` leaves the timer armed, and flushes exactly when the timer
      was off or has been reached. */
  lemma AdvanceArms(c: Clock, interval: u32, k: nat)
    requires 0 < interval <= 5000 && k < I32_LIMIT
    requires c.updated ==> Armed(c, interval)
    ensures var (c', flush) := Advance(c, interval, W32(c.current + k));
            && Armed(c', interval) && c'.current == W32(c.current + k)
            && (flush <==> !c.updated || k >= TimeDiff(c.tsFlush, c.current))
  {
    var now := W32(c.current + k);
    TimeDiffOf(now, 0, 0);
    NextFlushIsAhead(now, now, interval);
    if c.updated {
      ArmedDistance(c, interval, k);
      if k >= TimeDiff(c.tsFlush, c.current) && TimeDiff(now, c.tsFlush) < SLAP_LIMIT {
        NextFlushIsAhead(c.tsFlush, now, interval);
      }
    }
  }

  lemma ArmedDistance(c: Clock, interval: u32, k: nat)
    requires interval <= 5000 && k < I32_LIMIT && Armed(c, interval)
    ensures var gap, now := TimeDiff(c.tsFlush, c.current), W32(c.current + k);
            TimeDiff(now, c.tsFlush) == k - gap && (k < gap ==> TimeDiff(c.tsFlush, now) == gap - k)
  {
    var gap := TimeDiff(c.tsFlush, c.current);
    TimeDiffIsSignedDistance(c.tsFlush, c.current, gap);
    TimeDiffOf(c.current, k, gap);
    if k < gap {
      TimeDiffOf(c.current, gap, k);
    }
  }

  /** Successive updates, each `steps[i]` milliseconds after the one before. */
  function AdvanceMany(c: Clock, interval: u32, steps: seq<nat>): Clock
    decreases |steps|
  {
    if steps == [] then c else AdvanceMany(Advance(c, interval, W32(c.current + steps[0])).0, interval, steps[1..])
  }

  /** Under any forward run of updates, across wraps of the clock, the timer stays armed. */
  lemma {:induction false} TimerStaysArmed(c: Clock, interval: u32, steps: seq<nat>)
    requires 0 < interval <= 5000 && (c.updated ==> Armed(c, interval))
    requires steps != [] && forall i :: 0 <= i < |steps| ==> steps[i] < I32_LIMIT
    ensures Armed(AdvanceMany(c, interval, steps), interval)
    decreases |steps|
  {
    AdvanceArms(c, interval, steps[0]);
    if |steps| > 1 {
      TimerStaysArmed(Advance(c, interval, W32(c.current + steps[0])).0, interval, steps[1..]);
    }
  }

  // ---------- When an update flushes, and when the next flush is due

  /** Every case of an update that finds the timer at a signed distance `d` from now: more than ten seconds off either
      way, or not started, it starts afresh one interval from now; not yet reached, it waits; passed by less than an
      interval, it moves on by exactly one interval; passed by more, it starts afresh. */
  lemma AdvanceExactly(c: Clock, interval: u32, now: u32)
    requires 0 < interval <= 5000
    ensures var d := TimeDiff(now, c.tsFlush);
            var (c', flush) := Advance(c, interval, now);
            && c'.current == now && c'.updated
            && (flush <==> !c.updated || d >= 0 || d < -10_000)
            && (c.updated && -10_000 <= d < 0 ==> c'.tsFlush == c.tsFlush)
            && (c.updated && 0 <= d < interval ==> c'.tsFlush == W32(c.tsFlush + interval))
            && (!c.updated || d >= interval || d < -10_000 ==> c'.tsFlush == W32(now + interval))
  {
    hide W32, TimeDiff;
    NowIsNow(now);
    Ahead(now, interval);
    BothDistances(now, now, interval);
    if c.updated && 0 <= TimeDiff(now, c.tsFlush) < SLAP_LIMIT {
      BothDistances(c.tsFlush, now, interval);
    }
  }

  lemma NowIsNow(now: u32)
    ensures TimeDiff(now, now) == 0
  {
  }

  /** The times at which a forward run of updates flushes, counted from `time`. */
  function FlushTimes(c: Clock, interval: u32, steps: seq<nat>, time: nat): seq<nat>
    decreases |steps|
  {
    if steps == [] then []
    else
      var (c', flush) := Advance(c, interval, W32(c.current + steps[0]));
      (if flush then [time + steps[0]] else []) + FlushTimes(c', interval, steps[1..], time + steps[0])
  }

  /** After an update of an armed timer: either it had not been reached, or it flushes and is due again no less than
      one interval after it was due, and no more than one interval from now. */
  lemma ArmedStep(c: Clock, interval: u32, k: nat)
    requires 0 < interval <= 5000 && k < I32_LIMIT && Armed(c, interval)
    ensures var gap := TimeDiff(c.tsFlush, c.current);
            var (c', flush) := Advance(c, interval, W32(c.current + k));
            && Armed(c', interval) && c'.current == W32(c.current + k)
            && (flush <==> k >= gap)
            && (!flush ==> k + TimeDiff(c'.tsFlush, c'.current) == gap)
            && (flush ==> k + TimeDiff(c'.tsFlush, c'.current) >= gap + interval)
  {
    hide Advance, W32, TimeDiff;
    var gap, now := TimeDiff(c.tsFlush, c.current), W32(c.current + k);
    AdvanceArms(c, interval, k);
    ArmedDistance(c, interval, k);
    AdvanceExactly(c, interval, now);
    Ahead(now, interval);
    if gap <= k < gap + interval {
      BothDistances(c.tsFlush, now, interval);
    }
  }

  /** Flushes keep their distance: whatever the rhythm of the updates, across wraps of the clock, the i-th flush of an
      armed timer comes at least i intervals after the timer is first due. */
  lemma {:induction false} FlushesKeepDistance(c: Clock, interval: u32, steps: seq<nat>, time: nat, i: nat)
    requires 0 < interval <= 5000 && Armed(c, interval)
    requires (forall j :: 0 <= j < |steps| ==> steps[j] < I32_LIMIT) && i < |FlushTimes(c, interval, steps, time)|
    ensures FlushTimes(c, interval, steps, time)[i] >= time + TimeDiff(c.tsFlush, c.current) + i * interval
    decreases |steps|
  {
    hide Advance, W32, TimeDiff;
    var (c', flush) := Advance(c, interval, W32(c.current + steps[0]));
    ArmedStep(c, interval, steps[0]);
    if !flush {
      FlushesKeepDistance(c', interval, steps[1..], time + steps[0], i);
    } else if i > 0 {
      FlushesKeepDistance(c', interval, steps[1..], time + steps[0], i - 1);
      assert i * interval == (i - 1) * interval + interval;
    }
  }

  /** Over every forward run of updates from any start: the i-th flush after the first comes more than i - 1 intervals
      after it. */
  lemma FlushesAreSpaced(c: Clock, interval: u32, steps: seq<nat>, time: nat, i: nat)
    requires 0 < interval <= 5000 && (c.updated ==> Armed(c, interval))
    requires (forall j :: 0 <= j < |steps| ==> steps[j] < I32_LIMIT)
    requires 0 < i < |FlushTimes(c, interval, steps, time)|
    ensures var times := FlushTimes(c, interval, steps, time); times[i] - times[0] > (i - 1) * interval
    decreases |steps|
  {
    hide Advance, W32, TimeDiff;
    var (c', flush) := Advance(c, interval, W32(c.current + steps[0]));
    AdvanceArms(c, interval, steps[0]);
    if flush {
      FlushesKeepDistance(c', interval, steps[1..], time + steps[0], i - 1);
    } else {
      FlushesAreSpaced(c', interval, steps[1..], time + steps[0], i);
    }
  }

  /** And they do not fall behind: when each update comes at most `rhythm` ms after the one before, each flush comes
      less than one interval and one rhythm after the one before. */
  lemma {:induction false} FlushesKeepUp(c: Clock, interval: u32, steps: seq<nat>, time: nat, rhythm: nat, i: nat)
    requires 0 < interval <= 5000 && Armed(c, interval) && rhythm < I32_LIMIT
    requires (forall j :: 0 <= j < |steps| ==> steps[j] <= rhythm) && i < |FlushTimes(c, interval, steps, time)|
    ensures var times := FlushTimes(c, interval, steps, time);
            && times[0] < time + TimeDiff(c.tsFlush, c.current) + rhythm
            && times[i] - (if i == 0 then time else times[i - 1]) < interval + rhythm
    decreases |steps|
  {
    hide Advance, W32, TimeDiff;
    var (c', flush) := Advance(c, interval, W32(c.current + steps[0]));
    ArmedStep(c, interval, steps[0]);
    var rest := FlushTimes(c', interval, steps[1..], time + steps[0]);
    if !flush {
      FlushesKeepUp(c', interval, steps[1..], time + steps[0], rhythm, i);
    } else if i > 0 {
      FlushesKeepUp(c', interval, steps[1..], time + steps[0], rhythm, i - 1);
    }
  }
}
