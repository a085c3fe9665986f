/** Probing a peer that announced a window of zero. */
module WindowProbe {
  import opened Machine

  const PROBE_INIT := 7_000
  const PROBE_LIMIT := 120_000

  /** The probe timer and the two bits of the probe mask: ask for the peer's window, tell our own. */
  datatype Prober = Prober(wait: nat, ts: u32, askSend: bool, askTell: bool)

  function NextWait(wait: nat): nat {
    var w := Max(wait, PROBE_INIT);
    Min(w + w / 2, PROBE_LIMIT)
  }

  /** What each flush does first. */
  function ProbeStep(p: Prober, rmtWnd: nat, now: u32): Prober {
    if rmtWnd != 0 then p.(ts := 0, wait := 0)
    else if p.wait == 0 then p.(wait := PROBE_INIT, ts := W32(now + PROBE_INIT))
    else if TimeDiff(now, p.ts) >= 0 then
      p.(wait := NextWait(p.wait), ts := W32(now + NextWait(p.wait)), askSend := true)
    else p
  }

  /** Each flush sends what the mask asks for and clears it. */
  function Cleared(p: Prober): Prober {
    p.(askSend := false, askTell := false)
  }

  predicate ProbeOk(p: Prober) {
    p.wait == 0 || PROBE_INIT <= p.wait <= PROBE_LIMIT
  }

  /** The wait stays zero or in its range, and never shrinks while the peer's window is zero. */
  lemma ProbeStepKeeps(p: Prober, rmtWnd: nat, now: u32)
    requires ProbeOk(p)
    ensures ProbeOk(ProbeStep(p, rmtWnd, now))
    ensures rmtWnd == 0 ==> ProbeStep(p, rmtWnd, now).wait >= p.wait
    ensures ProbeStep(p, rmtWnd, now).askSend && !p.askSend ==> rmtWnd == 0 && p.wait != 0
  {
  }

  /** Every case of a flush. The wait grows by half, rounded down, from 7000 ms on and up to 120000 ms. */
  lemma ProbeExactly(p: Prober, rmtWnd: nat, now: u32)
    requires ProbeOk(p)
    ensures var q := ProbeStep(p, rmtWnd, now);
            && q.askTell == p.askTell
            && (rmtWnd > 0 ==> q == p.(wait := 0, ts := 0))
            && (rmtWnd == 0 && p.wait == 0 ==> q == p.(wait := 7_000, ts := W32(now + 7_000)))
            && (rmtWnd == 0 && p.wait > 0 && TimeDiff(now, p.ts) < 0 ==> q == p)
            && (rmtWnd == 0 && p.wait > 0 && TimeDiff(now, p.ts) >= 0 ==>
                  && q.askSend && q.ts == W32(now + q.wait)
                  && q.wait == if p.wait >= 80_000 then 120_000 else p.wait + p.wait / 2)
  {
    hide W32, TimeDiff;
  }

  /** The spacing of successive probes: half as much again each time, up to the limit. */
  function Ladder(wait: nat, k: nat): nat
    decreases k
  {
    if k == 0 then wait else Ladder(NextWait(wait), k - 1)
  }

  /** The waits that follow one another: the eighth is the last one to grow. */
  lemma LadderValues(k: nat)
    ensures [Ladder(7_000, 0), Ladder(7_000, 1), Ladder(7_000, 2), Ladder(7_000, 3), Ladder(7_000, 4)]
         == [7_000, 10_500, 15_750, 23_625, 35_437]
    ensures [Ladder(7_000, 5), Ladder(7_000, 6), Ladder(7_000, 7), Ladder(7_000, 8)]
         == [53_155, 79_732, 119_598, 120_000]
    ensures k >= 8 ==> Ladder(7_000, k) == 120_000
  {
    hide Ladder;
    LadderStart(7_000);
    for i := 1 to 9
      invariant forall j :: 1 <= j < i ==> Ladder(7_000, j) == NextWait(Ladder(7_000, j - 1))
    {
      LadderFrom(7_000, i);
    }
    if k >= 8 {
      LadderEnds(k);
    }
  }

  lemma LadderStart(wait: nat)
    ensures Ladder(wait, 0) == wait
  {
  }

  lemma {:induction false} LadderFrom(wait: nat, k: nat)
    requires k > 0
    ensures Ladder(wait, k) == NextWait(Ladder(wait, k - 1))
    decreases k
  {
    if k > 1 {
      LadderFrom(NextWait(wait), k - 1);
    }
  }

  lemma {:induction false} LadderEnds(k: nat)
    requires k >= 8 && Ladder(7_000, 8) == 120_000
    ensures Ladder(7_000, k) == 120_000
    decreases k
  {
    if k > 8 {
      LadderEnds(k - 1);
      LadderFrom(7_000, k);
    }
  }

  /** A flush during the run: the peer's window and the time. The clock shows the time cut to 32 bits. */
  datatype FlushView = FlushView(rmtWnd: nat, at: nat)

  function ProbeAt(p: Prober, v: FlushView): Prober {
    ProbeStep(p, v.rmtWnd, W32(v.at))
  }

  /** The times at which flushes send a window probe. */
  function ProbeTimes(p: Prober, views: seq<FlushView>): seq<nat>
    decreases |views|
  {
    if views == [] then []
    else
      var q := ProbeAt(p, views[0]);
      (if q.askSend then [views[0].at] else []) + ProbeTimes(Cleared(q), views[1..])
  }

  function AfterFlushes(p: Prober, views: seq<FlushView>): Prober
    decreases |views|
  {
    if views == [] then p
    else AfterFlushes(Cleared(ProbeAt(p, views[0])), views[1..])
  }

  /** Over every run of flushes, whatever the peer announces, the wait is zero or in its range. */
  lemma {:induction false} WaitInRange(p: Prober, views: seq<FlushView>)
    requires ProbeOk(p)
    ensures ProbeOk(AfterFlushes(p, views))
    decreases |views|
  {
    if views != [] {
      ProbeStepKeeps(p, views[0].rmtWnd, W32(views[0].at));
      WaitInRange(Cleared(ProbeAt(p, views[0])), views[1..]);
    }
  }

  /** A stretch of time, however long, in which the peer's window is zero. */
  predicate Stretch(views: seq<FlushView>, from: int)
    decreases |views|
  {
    views == [] ||
    (views[0].rmtWnd == 0 && from <= views[0].at && Stretch(views[1..], views[0].at))
  }

  lemma {:induction false} LadderGrows(wait: nat, k: nat)
    requires wait <= PROBE_LIMIT
    ensures PROBE_LIMIT >= Ladder(wait, k + 1) >= Ladder(wait, k) >= wait
    ensures k > 0 ==> Ladder(wait, k) >= PROBE_INIT
    decreases k
  {
    if k > 0 {
      LadderGrows(NextWait(wait), k - 1);
    } else {
      assert Ladder(wait, 1) == Ladder(NextWait(wait), 0);
    }
  }

  /** A prober at time `from` of a stretch: the next probe is due at `due`. */
  predicate Waiting(p: Prober, from: int, due: int) {
    PROBE_INIT <= p.wait <= PROBE_LIMIT && p.ts == W32(due) && due <= from + PROBE_LIMIT && !p.askSend
  }

  /** Before it is due no probe is sent, whatever the clock shows; a probe once sent sets the next distance. When
      flushes are so rare that the timer has been passed by half the clock's circle, the probe may be missed. */
  lemma WaitingStep(p: Prober, v: FlushView, from: int, due: int)
    requires Waiting(p, from, due) && v.rmtWnd == 0 && from <= v.at
    ensures var q := ProbeAt(p, v);
            if q.askSend then v.at >= due && q.wait == NextWait(p.wait) && Waiting(Cleared(q), v.at, v.at + q.wait)
            else q == p && Waiting(Cleared(q), v.at, due)
  {
    if v.at < due {
      TimeDiffOf(v.at, 0, due - v.at);
    }
    AddWrapped(v.at, NextWait(p.wait));
  }

  /** Successive probes of a stretch keep the distances of the ladder; the first waits for the timer. */
  lemma {:induction false} ProbesAreSpaced(p: Prober, views: seq<FlushView>, from: int, due: int, i: nat)
    requires Waiting(p, from, due) && Stretch(views, from)
    requires i < |ProbeTimes(p, views)|
    ensures i == 0 ==> ProbeTimes(p, views)[0] >= due
    ensures i > 0 ==> ProbeTimes(p, views)[i] - ProbeTimes(p, views)[i - 1] >= Ladder(p.wait, i)
    decreases |views|
  {
    hide ProbeAt, NextWait, Waiting, W32;
    var at, q := views[0].at, ProbeAt(p, views[0]);
    WaitingStep(p, views[0], from, due);
    if !q.askSend {
      assert Cleared(q).wait == p.wait;
      ProbesAreSpaced(Cleared(q), views[1..], at, due, i);
    } else if i > 0 {
      ProbesAreSpaced(Cleared(q), views[1..], at, at + q.wait, i - 1);
      assert Ladder(p.wait, i) == Ladder(q.wait, i - 1);
    }
  }

  /** During a stretch of a zero peer window that begins with the timer off, however long it is and however often
      the clock wraps in it, the first probe comes at least 7000 ms after the stretch is first seen, and the
      (i+1)-th at least the i-th step of the ladder after the i-th: 10500 ms, 15750 ms, and so on up to 120000 ms. */
  lemma ZeroWindowProbing(p: Prober, views: seq<FlushView>, i: nat)
    requires p.wait == 0 && !p.askSend && views != [] && Stretch(views, views[0].at)
    requires i < |ProbeTimes(p, views)|
    ensures i == 0 ==> ProbeTimes(p, views)[0] - views[0].at >= PROBE_INIT
    ensures i > 0 ==> ProbeTimes(p, views)[i] - ProbeTimes(p, views)[i - 1] >= Ladder(PROBE_INIT, i) >= 10_500
  {
    hide NextWait;
    var at, q := views[0].at, Cleared(ProbeAt(p, views[0]));
    AddWrapped(at, PROBE_INIT);
    ProbesAreSpaced(q, views[1..], at, at + PROBE_INIT, i);
    if i > 0 {
      FirstStep(i);
    }
  }

  lemma FirstStep(i: nat)
    requires i > 0
    ensures Ladder(PROBE_INIT, i) >= 10_500
  {
    LadderGrows(NextWait(PROBE_INIT), i - 1);
  }

  // ---------- Probes are not late either

  /** A prober in a stretch whose flushes follow one another within `rhythm` ms: the next probe is due at `due`, and
      time has not passed it. */
  predicate OnTime(p: Prober, from: int, due: int) {
    Waiting(p, from, due) && from < due
  }

  /** No flush of the stretch comes more than `rhythm` ms after the one before, or after `from`. */
  predicate Rhythmic(views: seq<FlushView>, from: int, rhythm: nat)
    decreases |views|
  {
    views == [] || (views[0].at <= from + rhythm && Rhythmic(views[1..], views[0].at, rhythm))
  }

  lemma OnTimeStep(p: Prober, v: FlushView, from: int, due: int, rhythm: nat)
    requires OnTime(p, from, due) && v.rmtWnd == 0 && from <= v.at <= from + rhythm && rhythm < I32_LIMIT
    ensures var q := ProbeAt(p, v);
            && (q.askSend <==> v.at >= due)
            && (if q.askSend then q.wait == NextWait(p.wait) && OnTime(Cleared(q), v.at, v.at + q.wait)
                else q == p && OnTime(Cleared(q), v.at, due))
  {
    WaitingStep(p, v, from, due);
    if v.at >= due {
      TimeDiffOf(v.at, 0, due - v.at);
    }
  }

  /** Each probe of a stretch is sent by the first flush at which it is due. */
  lemma {:induction false} ProbesAreTimely(p: Prober, views: seq<FlushView>, from: int, due: int, rhythm: nat, i: nat)
    requires OnTime(p, from, due) && Stretch(views, from) && Rhythmic(views, from, rhythm) && rhythm < I32_LIMIT
    requires i < |ProbeTimes(p, views)|
    ensures i == 0 ==> due <= ProbeTimes(p, views)[0] < due + rhythm
    ensures i > 0 ==> var gap: int := ProbeTimes(p, views)[i] as int - ProbeTimes(p, views)[i - 1];
                      Ladder(p.wait, i) <= gap < Ladder(p.wait, i) + rhythm
    decreases |views|
  {
    hide ProbeAt, NextWait, OnTime, W32;
    var at, q := views[0].at, ProbeAt(p, views[0]);
    OnTimeStep(p, views[0], from, due, rhythm);
    OnTimeParts(p, from, due);
    if !q.askSend {
      assert Cleared(q).wait == p.wait;
      ProbesAreTimely(Cleared(q), views[1..], at, due, rhythm, i);
    } else if i > 0 {
      ProbesAreTimely(Cleared(q), views[1..], at, at + q.wait, rhythm, i - 1);
      assert Ladder(p.wait, i) == Ladder(q.wait, i - 1);
    }
  }

  lemma OnTimeParts(p: Prober, from: int, due: int)
    requires OnTime(p, from, due)
    ensures from < due
  {
  }

  /** So in a stretch that begins with the timer off, with flushes at most `rhythm` ms apart, the first probe comes
      within `rhythm` of 7000 ms, and the (i+1)-th within `rhythm` of the i-th step of the ladder after the i-th. */
  lemma ZeroWindowProbesInTime(p: Prober, views: seq<FlushView>, rhythm: nat, i: nat)
    requires p.wait == 0 && !p.askSend && views != [] && Stretch(views, views[0].at)
    requires Rhythmic(views, views[0].at, rhythm) && rhythm < I32_LIMIT
    requires i < |ProbeTimes(p, views)|
    ensures i == 0 ==> 7_000 <= ProbeTimes(p, views)[0] - views[0].at < 7_000 + rhythm
    ensures i > 0 ==> var gap: int := ProbeTimes(p, views)[i] as int - ProbeTimes(p, views)[i - 1];
                      Ladder(7_000, i) <= gap < Ladder(7_000, i) + rhythm
  {
    hide NextWait;
    var at, q := views[0].at, Cleared(ProbeAt(p, views[0]));
    AddWrapped(at, PROBE_INIT);
    ProbesAreTimely(q, views[1..], at, at + PROBE_INIT, rhythm, i);
  }
}
