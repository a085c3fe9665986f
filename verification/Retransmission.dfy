/** When a segment of the send window is (re)transmitted, and how its timer backs off. */
module Retransmission {
  import opened Machine
  import opened Wire
  import opened RttEstimator
  import opened Sequences

  /** What one flush knows when it visits a segment. */
  datatype Pace = Pace(now: u32, rxRto: nat, nodelay: nat, resent: nat, wnd: nat, una: nat)

  datatype Due = First | Timeout | Fast | NotDue

  function DueOf(g: Segment, p: Pace): Due {
    if g.xmit == 0 then First
    else if TimeDiff(p.now, g.resendts) >= 0 then Timeout
    else if g.fastack >= p.resent then Fast
    else NotDue
  }

  /** The segment after the visit; when due it is stamped with the time, the window and the next number
      expected. */
  function Visit(g: Segment, p: Pace): Segment {
    match DueOf(g, p)
    case First =>
      var extra := if p.nodelay == 0 then p.rxRto / 8 else 0;
      Sent(g, p).(rto := p.rxRto, resendts := W32(p.now + p.rxRto + extra))
    case Timeout =>
      var rto := g.rto + if p.nodelay == 0 then p.rxRto else p.rxRto / 2;
      Sent(g, p).(rto := rto, resendts := W32(p.now + rto))
    case Fast =>
      Sent(g, p).(fastack := 0, resendts := W32(p.now + g.rto))
    case NotDue => g
  }

  function Sent(g: Segment, p: Pace): Segment {
    g.(xmit := g.xmit + 1, ts := p.now, wnd := p.wnd, una := p.una)
  }

  function VisitAll(buf: seq<Segment>, p: Pace): (r: seq<Segment>)
    ensures |r| == |buf|
  {
    seq(|buf|, i requires 0 <= i < |buf| => Visit(buf[i], p))
  }

  /** The segments that one flush over `buf` transmits, in order. */
  function Transmitted(buf: seq<Segment>, p: Pace): seq<Segment> {
    if buf == [] then []
    else (if DueOf(buf[0], p) == NotDue then [] else [Visit(buf[0], p)]) + Transmitted(buf[1..], p)
  }

  predicate AnyDue(buf: seq<Segment>, p: Pace, d: Due) {
    exists g :: g in buf && DueOf(g, p) == d
  }

  function Timeouts(buf: seq<Segment>, p: Pace): nat {
    if buf == [] then 0
    else (if DueOf(buf[0], p) == Timeout then 1 else 0) + Timeouts(buf[1..], p)
  }

  lemma {:induction false} TransmittedAppend(a: seq<Segment>, b: seq<Segment>, p: Pace)
    ensures Transmitted(a + b, p) == Transmitted(a, p) + Transmitted(b, p)
    ensures Timeouts(a + b, p) == Timeouts(a, p) + Timeouts(b, p)
  {
    hide DueOf, Visit;
    if a == [] {
      NilAppend(b);
    } else {
      TransmittedAppend(a[1..], b, p);
      ConsAppend(a, b);
      Assoc(if DueOf(a[0], p) == NotDue then [] else [Visit(a[0], p)], Transmitted(a[1..], p), Transmitted(b, p));
    }
  }

  /** What is transmitted is exactly the visited form of the segments that were due. */
  lemma {:induction false} TransmittedMembers(buf: seq<Segment>, p: Pace, s: Segment)
    ensures s in Transmitted(buf, p) <==> exists g :: g in buf && DueOf(g, p) != NotDue && Visit(g, p) == s
  {
    if buf != [] {
      assert buf == [buf[0]] + buf[1..];
      TransmittedMembers(buf[1..], p, s);
    }
  }

  // ---------- Back-off

  /** The longest life of a segment considered here, in milliseconds: some 557 years. Until then the segment's own
      timeout, which grows by at most `RTO_MAX` with each retransmission, stays below half the clock's circle. */
  const LIFETIME := 0x1000_0000_0000

  /** A visit of a flush to a segment whose fast-retransmit count has meanwhile reached `fastack`. The clock shows
      the time `at` cut to 32 bits. */
  datatype Round = Round(pace: Pace, fastack: nat, at: nat)

  function Before(g: Segment, v: Round): Segment {
    g.(fastack := v.fastack)
  }

  /** The times at which a segment is retransmitted because its timer ran out. */
  function TimeoutTimes(g: Segment, rounds: seq<Round>): seq<nat>
    decreases |rounds|
  {
    if rounds == [] then []
    else
      var b, v := Before(g, rounds[0]), rounds[0];
      (if DueOf(b, v.pace) == Timeout then [v.at] else []) + TimeoutTimes(Visit(b, v.pace), rounds[1..])
  }

  /** A round of a connection without the no-delay option whose timeout is at least `m`, seen at time `at`. */
  predicate Regular(v: Round, m: nat) {
    v.pace.now == W32(v.at) && m <= v.pace.rxRto <= RTO_MAX && v.pace.nodelay == 0
  }

  /** Regular rounds in the order of time, none before `from` nor past `until`. */
  predicate Orderly(rounds: seq<Round>, from: int, until: int, m: nat)
    decreases |rounds|
  {
    rounds == [] ||
    (from <= rounds[0].at <= until && Regular(rounds[0], m) && Orderly(rounds[1..], rounds[0].at, until, m))
  }

  /** The least time `k` successive timeouts take: m + 2m + ... + km. */
  function BackOff(m: nat, k: nat): nat {
    if k == 0 then 0 else BackOff(m, k - 1) + k * m
  }

  lemma {:induction false} BackOffIsTriangular(m: nat, k: nat)
    ensures 2 * BackOff(m, k) == m * k * (k + 1)
  {
    if k > 0 {
      BackOffIsTriangular(m, k - 1);
      assert m * (k - 1) * k + 2 * (k * m) == m * k * (k + 1);
    }
  }

  /** A timeout that has grown to `rto` took at least this long to grow. */
  predicate Earned(rto: nat, elapsed: int) {
    2 * RTO_MAX * elapsed >= rto * (rto - RTO_MAX)
  }

  /** What holds at time `from` of a segment first sent at `t0`, timed out `k` times so far and due at `due`. */
  ghost predicate BackedOff(g: Segment, t0: int, k: nat, m: nat, from: int, due: int) {
    && g.xmit >= 1 && (k + 1) * m <= g.rto
    && g.resendts == W32(due)
    && t0 + BackOff(m, k) <= from
    && t0 + BackOff(m, k + 1) <= due <= from + g.rto + RTO_MAX
    && Earned(g.rto, from - t0) && Earned(g.rto, due - g.rto - t0)
  }

  lemma FirstIsNoTimeout(g: Segment, p: Pace)
    requires g.xmit == 0
    ensures DueOf(g, p) == First
  {
  }

  /** When the next timeout is due after a visit. */
  function DueAfter(g: Segment, v: Round, due: int): int {
    match DueOf(g, v.pace)
    case First => v.at + v.pace.rxRto + v.pace.rxRto / 8
    case Timeout => v.at + g.rto + v.pace.rxRto
    case Fast => v.at + g.rto
    case NotDue => due
  }

  lemma FirstVisit(g: Segment, v: Round, m: nat)
    requires g.xmit == 0 && Regular(v, m)
    ensures BackedOff(Visit(Before(g, v), v.pace), v.at, 0, m, v.at, DueAfter(Before(g, v), v, 0))
  {
    var rto := v.pace.rxRto;
    assert BackOff(m, 1) == BackOff(m, 0) + m && BackOff(m, 0) == 0;
    AddWrapped(v.at, rto + rto / 8);
    NotGrown(rto, 0);
    NotGrown(rto, rto / 8);
  }

  lemma NotGrown(rto: nat, elapsed: nat)
    requires rto <= RTO_MAX
    ensures Earned(rto, elapsed)
  {
    Monotone(rto - RTO_MAX, 0, rto);
  }

  lemma EarnedLater(rto: nat, elapsed: int, later: int)
    requires Earned(rto, elapsed) && later >= elapsed
    ensures Earned(rto, later)
  {
  }

  /** One timeout more, no earlier than the old one was due. */
  lemma EarnedMore(rto: nat, more: nat, elapsed: int)
    requires Earned(rto, elapsed - rto) && more <= RTO_MAX
    ensures Earned(rto + more, elapsed)
  {
    var x, y := rto + more, rto + more - RTO_MAX;
    Monotone(y, rto, x);
    Monotone(x, rto + RTO_MAX, rto);
    assert 2 * RTO_MAX * elapsed == 2 * RTO_MAX * (elapsed - rto) + 2 * RTO_MAX * rto;
    assert rto * (rto - RTO_MAX) + 2 * RTO_MAX * rto == (rto + RTO_MAX) * rto;
  }

  /** Within its lifetime a segment's timeout stays far below half the clock's circle. */
  lemma TimeoutStaysSmall(rto: nat, elapsed: int)
    requires Earned(rto, elapsed) && elapsed < LIFETIME
    ensures rto + 2 * RTO_MAX < I32_LIMIT
  {
    if rto + 2 * RTO_MAX >= I32_LIMIT {
      GrowingTakesLong(rto);
    }
  }

  lemma GrowingTakesLong(rto: nat)
    requires rto + 2 * RTO_MAX >= I32_LIMIT
    ensures rto * (rto - RTO_MAX) >= 2 * RTO_MAX * LIFETIME
  {
    var least := I32_LIMIT - 2 * RTO_MAX;
    Monotone(least, rto, rto - RTO_MAX);
    Monotone(least - RTO_MAX, rto - RTO_MAX, least);
  }

  /** A timer that runs out has been reached. */
  lemma RunOutIsReached(g: Segment, v: Round, t0: int, k: nat, m: nat, from: int, due: int)
    requires BackedOff(g, t0, k, m, from, due) && Regular(v, m) && from <= v.at && from < t0 + LIFETIME
    ensures DueOf(Before(g, v), v.pace) == Timeout ==> v.at >= due
  {
    hide BackOff, W32, TimeDiff, Earned;
    TimeoutStaysSmall(g.rto, from - t0);
    if v.at < due {
      TimeDiffOf(v.at, 0, due - v.at);
    }
  }

  /** Why a segment's life has to be bounded: a retransmission whose timeout has grown past half the clock's circle
      is due again at once, and one that has not is not. */
  lemma DueAgainAtOnce(g: Segment, p: Pace)
    requires DueOf(g, p) == Timeout && 0 < Visit(g, p).rto < U32_LIMIT
    ensures DueOf(Visit(g, p), p) == Timeout <==> Visit(g, p).rto > I32_LIMIT
  {
    hide TimeDiff, W32;
    var rto := Visit(g, p).rto;
    Untruncated(p.now);
    if rto <= I32_LIMIT {
      TimeDiffOf(p.now, 0, rto);
    } else {
      TimeDiffOf(p.now, 0, rto - U32_LIMIT);
      OnceAround(p.now + rto);
    }
  }

  lemma VisitBacksOff(g: Segment, v: Round, t0: int, k: nat, m: nat, from: int, due: int)
    requires BackedOff(g, t0, k, m, from, due) && Regular(v, m) && from <= v.at && from < t0 + LIFETIME
    ensures var b := Before(g, v);
            var k' := if DueOf(b, v.pace) == Timeout then k + 1 else k;
            && BackedOff(Visit(b, v.pace), t0, k', m, v.at, DueAfter(b, v, due))
            && (k' > k ==> v.at >= t0 + BackOff(m, k'))
  {
    hide BackOff, W32, TimeDiff, Earned;
    var rto, rxRto := g.rto, v.pace.rxRto;
    RunOutIsReached(g, v, t0, k, m, from, due);
    BackOffStep(m, k);
    BackOffStep(m, k + 1);
    Multiples(k, m);
    AddWrapped(v.at, rto + rxRto);
    AddWrapped(v.at, rto);
    EarnedLater(rto, from - t0, v.at - t0);
    if v.at >= due {
      EarnedLater(rto, due - rto - t0, v.at - rto - t0);
      EarnedMore(rto, rxRto, v.at - t0);
    }
  }

  lemma BackOffStep(m: nat, k: nat)
    ensures BackOff(m, k + 1) == BackOff(m, k) + (k + 1) * m
  {
  }

  lemma Multiples(k: nat, m: nat)
    ensures (k + 2) * m == (k + 1) * m + m && (k + 1 + 1) * m == (k + 2) * m
  {
  }

  lemma {:induction false} TimeoutsAreSpaced(g: Segment, rounds: seq<Round>, t0: int, k: nat, m: nat,
                                             from: int, due: int, until: int, i: nat)
    requires BackedOff(g, t0, k, m, from, due) && Orderly(rounds, from, until, m)
    requires from <= until < t0 + LIFETIME
    requires i < |TimeoutTimes(g, rounds)|
    ensures TimeoutTimes(g, rounds)[i] >= t0 + BackOff(m, k + 1 + i)
    decreases |rounds|
  {
    hide BackOff, BackedOff, Visit, DueOf, DueAfter, W32;
    var v := rounds[0];
    var b := Before(g, v);
    VisitBacksOff(g, v, t0, k, m, from, due);
    var next := DueAfter(b, v, due);
    if DueOf(b, v.pace) != Timeout {
      TimeoutsAreSpaced(Visit(b, v.pace), rounds[1..], t0, k, m, v.at, next, until, i);
    } else if i > 0 {
      TimeoutsAreSpaced(Visit(b, v.pace), rounds[1..], t0, k + 1, m, v.at, next, until, i - 1);
    }
  }

  /** The k-th timeout retransmission of a segment comes no earlier than m*k*(k+1)/2 milliseconds after its
      first transmission, however many flushes visit it, however many fast retransmissions happen in between and
      however often the clock wraps. */
  lemma RetransmissionSpacing(g: Segment, rounds: seq<Round>, until: int, m: nat, k: nat)
    requires rounds != [] && g.xmit == 0
    requires Orderly(rounds, rounds[0].at, until, m) && until - rounds[0].at < LIFETIME
    requires 1 <= k <= |TimeoutTimes(g, rounds)|
    ensures 2 * (TimeoutTimes(g, rounds)[k - 1] - rounds[0].at) >= m * k * (k + 1)
  {
    hide Visit, BackOff, BackedOff, DueOf, DueAfter;
    var v := rounds[0];
    FirstIsNoTimeout(Before(g, v), v.pace);
    FirstVisit(g, v, m);
    TimeoutsAreSpaced(Visit(Before(g, v), v.pace), rounds[1..], v.at, 0, m, v.at, DueAfter(Before(g, v), v, 0),
                      until, k - 1);
    BackOffIsTriangular(m, k);
  }
}
