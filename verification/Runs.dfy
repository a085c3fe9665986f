/** Whole runs of one endpoint against any environment: arbitrary messages, arbitrary bytes from the network,
    any timing. What the timers and windows do one flush at a time holds over every such run. */
module Runs {
  import opened Machine
  import opened Wire
  import opened Message
  import opened SendWindow
  import opened ReceiveWindow
  import opened RttEstimator
  import opened CongestionWindow
  import opened Retransmission
  import opened WindowProbe
  import opened Protocol
  import opened Sequences

  datatype Op =
    | Write(msg: seq<byte>)
    | Read(capacity: nat)
    | Arrive(bytes: seq<byte>)
    | Elapse(now: u32)
    | Push

  function Do(e: Endpoint, op: Op): Endpoint
    requires e.cfg.mss > 0
  {
    match op
    case Write(msg) => Send(e, msg).0
    case Read(capacity) => Recv(e, capacity).0
    case Arrive(bytes) => Input(e, bytes).0
    case Elapse(now) => Update(e, now).0
    case Push => Flush(e)
  }

  /** Whether the operation flushes, and the endpoint as the flush finds it. */
  predicate Flushes(e: Endpoint, op: Op) {
    match op
    case Elapse(now) => Tick(e, now).1
    case Push => e.clk.updated
    case _ => false
  }

  function AtFlush(e: Endpoint, op: Op): Endpoint {
    if op.Elapse? then Tick(e, op.now).0 else e
  }

  function DoAll(e: Endpoint, ops: seq<Op>): Endpoint
    requires e.cfg.mss > 0
    decreases |ops|
  {
    if ops == [] then e
    else
      DoKeepsSegmentSize(e, ops[0]);
      DoAll(Do(e, ops[0]), ops[1..])
  }

  lemma DoKeepsSegmentSize(e: Endpoint, op: Op)
    requires e.cfg.mss > 0
    ensures Do(e, op).cfg == e.cfg
  {
  }

  lemma FlushingOp(e: Endpoint, op: Op)
    requires e.cfg.mss > 0 && Flushes(e, op)
    ensures Do(e, op) == Flush(AtFlush(e, op)) && AtFlush(e, op).clk.updated
    ensures AtFlush(e, op) == e.(clk := AtFlush(e, op).clk)
  {
    hide Flush;
  }

  // ---------- Time

  /** The next moment after `time` at which a 32-bit millisecond clock shows `now`. */
  function Later(time: nat, now: u32): nat {
    time + W32(now - time)
  }

  /** The time after an operation at time `time`, or earlier ones. */
  function TimeAfter(time: nat, op: Op): nat {
    if op.Elapse? then Later(time, op.now) else time
  }

  function EndTime(time: nat, ops: seq<Op>): nat
    decreases |ops|
  {
    if ops == [] then time else EndTime(TimeAfter(time, ops[0]), ops[1..])
  }

  /** The endpoint's clock shows `time`. */
  predicate Shows(e: Endpoint, time: nat) {
    e.clk.current == W32(time)
  }

  lemma LaterShows(time: nat, now: u32)
    ensures W32(Later(time, now)) == now
  {
    AddWrapped(now - time, time);
  }

  lemma {:induction false} TimeGoesOn(time: nat, ops: seq<Op>)
    ensures EndTime(time, ops) >= time
    decreases |ops|
  {
    if ops != [] {
      TimeGoesOn(TimeAfter(time, ops[0]), ops[1..]);
    }
  }

  /** The readings of the run never go back, so the clock does not wrap. */
  predicate Plain(current: u32, ops: seq<Op>)
    decreases |ops|
  {
    ops == [] ||
    (if ops[0].Elapse? then current <= ops[0].now && Plain(ops[0].now, ops[1..]) else Plain(current, ops[1..]))
  }

  /** Then the time is what the clock shows. */
  lemma {:induction false} PlainTime(current: u32, ops: seq<Op>)
    requires Plain(current, ops)
    ensures EndTime(current, ops) < U32_LIMIT
    ensures ops != [] && ops[0].Elapse? ==> TimeAfter(current, ops[0]) == ops[0].now
    decreases |ops|
  {
    if ops != [] {
      if ops[0].Elapse? {
        Untruncated(ops[0].now - current);
        PlainTime(ops[0].now, ops[1..]);
      } else {
        PlainTime(current, ops[1..]);
      }
    }
  }

  // ---------- Safety of every run

  lemma DoKeepsValid(e: Endpoint, op: Op)
    requires Valid(e)
    ensures var d := Do(e, op);
            Valid(d) && d.snd.una >= e.snd.una && d.snd.nxt >= e.snd.nxt && d.rcv.nxt >= e.rcv.nxt
  {
    hide Valid, Drain, Span, Join, PeekSize, InputLoop, Conclude, Flush, Fragment;
    ValidParts(e);
    match op
    case Write(msg) => SendKeepsValid(e, msg);
    case Read(capacity) =>
      RecvKeepsValid(e, capacity);
      if RecvError(e.rcv.queue, capacity).None? {
        TakeMeaning(e.rcv, Span(Pieces(e.rcv.queue)));
      }
    case Arrive(bytes) => InputKeepsValid(e, bytes);
    case Elapse(now) =>
      TickKeepsValid(e, now);
      FlushKeepsValid(Tick(e, now).0);
    case Push => FlushKeepsValid(e);
  }

  /** Over every run, whatever bytes arrive, all invariants hold and the window edges never move back. */
  lemma {:induction false} RunIsSafe(e: Endpoint, ops: seq<Op>)
    requires Valid(e)
    ensures e.cfg.mss > 0
    ensures var d := DoAll(e, ops);
            Valid(d) && d.snd.una >= e.snd.una && d.snd.nxt >= e.snd.nxt && d.rcv.nxt >= e.rcv.nxt
    decreases |ops|
  {
    hide Valid, Do;
    ValidParts(e);
    if ops != [] {
      DoKeepsValid(e, ops[0]);
      DoKeepsSegmentSize(e, ops[0]);
      RunIsSafe(Do(e, ops[0]), ops[1..]);
    }
  }

  // ---------- What an operation without a flush can change

  /** The window loses segments and counts skips; the probe timer stands still; the timeout is either old or a
      bounded new one. */
  ghost predicate Quiet(e: Endpoint, d: Endpoint) {
    && d.cfg == e.cfg && d.snd.nxt == e.snd.nxt
    && d.probe == e.probe.(askTell := d.probe.askTell)
    && (d.rtt.rto == e.rtt.rto || Min(e.cfg.minRto, RTO_MAX) <= d.rtt.rto <= RTO_MAX)
    && forall g :: g in d.snd.buf ==> From(g, e.snd.buf)
  }

  /** `g` is a segment of `buf`, up to its skip count. */
  predicate From(g: Segment, buf: seq<Segment>) {
    exists x :: x in buf && g == x.(fastack := g.fastack)
  }

  lemma SameIsFrom(buf: seq<Segment>)
    ensures forall g :: g in buf ==> From(g, buf)
  {
    forall g | g in buf ensures From(g, buf) {
      assert g == g.(fastack := g.fastack);
    }
  }

  lemma QuietTransitive(e: Endpoint, d: Endpoint, f: Endpoint)
    requires Quiet(e, d) && Quiet(d, f)
    ensures Quiet(e, f)
  {
    forall g | g in f.snd.buf ensures From(g, e.snd.buf) {
      var x :| x in d.snd.buf && g == x.(fastack := g.fastack);
      var y :| y in e.snd.buf && x == y.(fastack := x.fastack);
      assert g == y.(fastack := g.fastack);
    }
  }

  lemma HandleIsQuiet(s: Scan, g: Segment)
    requires Valid(s.e)
    ensures Quiet(s.e, Handle(s, g).e)
  {
    hide Valid, TakeData, SndOk, From, TakeUna, TakeAck;
    ValidParts(s.e);
    var mid := TakeUna(s.e.snd, g.una);
    SameIsFrom(s.e.snd.buf);
    UnaIsAcknowledged(s.e.snd, g.una);
    AckRemovesOne(mid, g.sn);
    AcksKeepUpper(s.e.snd, g.una, g.sn);
    SampleTimeout(s.e, g);
  }

  lemma AcksKeepUpper(s: Sender, una: nat, sn: nat)
    ensures TakeUna(s, una).nxt == s.nxt && TakeAck(TakeUna(s, una), sn).nxt == s.nxt
  {
  }

  lemma SampleTimeout(e: Endpoint, g: Segment)
    ensures var d := TakeTiming(e, g.ts);
            d.rtt.rto == e.rtt.rto || Min(e.cfg.minRto, RTO_MAX) <= d.rtt.rto <= RTO_MAX
  {
  }

  lemma {:induction false} LoopIsQuiet(s: Scan, b: seq<byte>)
    requires Valid(s.e)
    ensures Quiet(s.e, InputLoop(s, b).0.e) && Valid(InputLoop(s, b).0.e)
    decreases |b|
  {
    hide Valid, Handle, InputLoop;
    InputLoopUnfold(s, b);
    if |b| >= OVERHEAD && HeaderError(s.e.cfg.conv, b).None? {
      var g := SegmentAt(s.e, b);
      HandleIsQuiet(s, g);
      HandleKeepsValid(s, g);
      LoopIsQuiet(Handle(s, g), b[NextHeader(s.e, b)..]);
      QuietTransitive(s.e, Handle(s, g).e, InputLoop(Handle(s, g), b[NextHeader(s.e, b)..]).0.e);
    } else {
      SameIsFrom(s.e.snd.buf);
    }
  }

  lemma ConcludeIsQuiet(s: Scan, oldUna: nat)
    requires Valid(s.e)
    ensures s.e.cfg.mss > 0 && Quiet(s.e, Conclude(s, oldUna))
  {
    hide Valid, SndOk, OnAdvance;
    ValidParts(s.e);
    SameIsFrom(s.e.snd.buf);
    if s.acked {
      var t := TakeFastack(s.e.snd, s.maxAck);
      FastackKeepsSender(s.e.snd, s.maxAck);
      forall g | g in t.buf ensures From(g, s.e.snd.buf) {
        var i :| 0 <= i < |t.buf| && t.buf[i] == g;
        assert s.e.snd.buf[i] in s.e.snd.buf;
      }
    }
  }

  lemma ArriveIsQuiet(e: Endpoint, b: seq<byte>)
    requires Valid(e)
    ensures e.cfg.mss > 0 && Quiet(e, Input(e, b).0) && Input(e, b).0.clk == e.clk
  {
    hide Valid, InputLoop, Conclude, Quiet;
    ValidParts(e);
    LoopIsQuiet(Scan(e, false, 0), b);
    LoopKeepsClock(Scan(e, false, 0), b);
    var s := InputLoop(Scan(e, false, 0), b).0;
    ConcludeIsQuiet(s, e.snd.una);
    ConcludeKeepsClock(s, e.snd.una);
    QuietTransitive(e, s.e, Conclude(s, e.snd.una));
    SameIsQuiet(e);
  }

  lemma SameIsQuiet(e: Endpoint)
    ensures Quiet(e, e)
  {
    SameIsFrom(e.snd.buf);
  }

  lemma ConcludeKeepsClock(s: Scan, oldUna: nat)
    requires s.e.cfg.mss > 0
    ensures Conclude(s, oldUna).clk == s.e.clk
  {
  }

  lemma {:induction false} LoopKeepsClock(s: Scan, b: seq<byte>)
    ensures InputLoop(s, b).0.e.clk == s.e.clk
    decreases |b|
  {
    hide TakeData, TakeUna, TakeAck, TakeSample, InputLoop;
    InputLoopUnfold(s, b);
    if |b| >= OVERHEAD && HeaderError(s.e.cfg.conv, b).None? {
      LoopKeepsClock(Handle(s, SegmentAt(s.e, b)), b[NextHeader(s.e, b)..]);
    }
  }

  /** An operation that does not flush is quiet, and moves the clock only if it is the passing of time. */
  lemma QuietOp(e: Endpoint, op: Op)
    requires Valid(e) && !Flushes(e, op)
    ensures e.cfg.mss > 0 && Quiet(e, Do(e, op))
    ensures Do(e, op).clk.current == if op.Elapse? then op.now else e.clk.current
  {
    hide Valid, From, Input, Drain, Span, Join, PeekSize, Fragment;
    ValidParts(e);
    SameIsFrom(e.snd.buf);
    if op.Arrive? {
      ArriveIsQuiet(e, op.bytes);
    }
  }

  // ---------- The segment of a number

  ghost function SegmentOf(buf: seq<Segment>, n: nat): (g: Segment)
    requires HasSn(buf, n)
    ensures g in buf && g.sn == n
  {
    var g :| g in buf && g.sn == n; g
  }

  lemma OneSegment(buf: seq<Segment>, g: Segment)
    requires Sorted(buf) && g in buf
    ensures HasSn(buf, g.sn) && SegmentOf(buf, g.sn) == g
  {
    var h := SegmentOf(buf, g.sn);
    var i :| 0 <= i < |buf| && buf[i] == g;
    var j :| 0 <= j < |buf| && buf[j] == h;
  }

  /** What flushes of a run that begins at time `time` see of segment `n` while it is in the window. */
  ghost function RoundsOf(e: Endpoint, ops: seq<Op>, n: nat, time: nat): seq<Round>
    requires e.cfg.mss > 0
    decreases |ops|
  {
    if ops == [] then []
    else
      DoKeepsSegmentSize(e, ops[0]);
      var at := TimeAfter(time, ops[0]);
      var rest := RoundsOf(Do(e, ops[0]), ops[1..], n, at);
      var a := AtFlush(e, ops[0]);
      if Flushes(e, ops[0]) && HasSn(a.snd.buf, n)
      then [Round(PaceOf(a), SegmentOf(a.snd.buf, n).fastack, at)] + rest
      else rest
  }

  /** The times at which flushes of the run retransmit segment `n` because its timer ran out. */
  ghost function TimeoutsOf(e: Endpoint, ops: seq<Op>, n: nat, time: nat): seq<nat>
    requires e.cfg.mss > 0
    decreases |ops|
  {
    if ops == [] then []
    else
      DoKeepsSegmentSize(e, ops[0]);
      var at := TimeAfter(time, ops[0]);
      var rest := TimeoutsOf(Do(e, ops[0]), ops[1..], n, at);
      var a := AtFlush(e, ops[0]);
      if Flushes(e, ops[0]) && HasSn(a.snd.buf, n) && DueOf(SegmentOf(a.snd.buf, n), PaceOf(a)) == Timeout
      then [at] + rest
      else rest
  }

  lemma QuietSegment(e: Endpoint, d: Endpoint, n: nat)
    requires Quiet(e, d) && Sorted(e.snd.buf) && HasSn(d.snd.buf, n)
    ensures HasSn(e.snd.buf, n)
    ensures var g, h := SegmentOf(e.snd.buf, n), SegmentOf(d.snd.buf, n); h == g.(fastack := h.fastack)
  {
    var h := SegmentOf(d.snd.buf, n);
    assert From(h, e.snd.buf);
    var x :| x in e.snd.buf && h == x.(fastack := h.fastack);
    OneSegment(e.snd.buf, x);
  }

  /** A flush visits the segment where it stands. */
  lemma FlushedSegment(a: Endpoint, n: nat)
    requires Valid(a) && a.clk.updated && HasSn(Admitted(a).buf, n)
    ensures HasSn(Flush(a).snd.buf, n)
    ensures SegmentOf(Flush(a).snd.buf, n) == Visit(SegmentOf(Admitted(a).buf, n), PaceOf(a))
  {
    hide Visit, Admit, OnFlush, Transmitted, Sorted, Valid;
    var s, p := Admitted(a), PaceOf(a);
    ControlKeepsWindow(a);
    FlushKeepsValid(a);
    ValidParts(a);
    ValidParts(Flush(a));
    assert Flush(a).snd.buf == VisitAll(s.buf, p);
    var g := SegmentOf(s.buf, n);
    var i :| 0 <= i < |s.buf| && s.buf[i] == g;
    VisitKeepsShape(s.buf, p, i);
    assert VisitAll(s.buf, p)[i] in Flush(a).snd.buf;
    SortedWindow(Flush(a).snd);
    OneSegment(Flush(a).snd.buf, VisitAll(s.buf, p)[i]);
  }

  lemma SortedWindow(s: Sender)
    requires SndOk(s)
    ensures Sorted(s.buf)
  {
  }

  lemma AdmittedSegment(a: Endpoint, n: nat)
    requires Valid(a) && HasSn(a.snd.buf, n)
    ensures HasSn(Admitted(a).buf, n) && SegmentOf(Admitted(a).buf, n) == SegmentOf(a.snd.buf, n)
  {
    hide Admit;
    var g := SegmentOf(a.snd.buf, n);
    AdmitKeepsSender(a.snd, WindowLimit(a), StampOf(a));
    AdmitShape(a.snd, WindowLimit(a), StampOf(a));
    assert g in Admitted(a).buf;
    OneSegment(Admitted(a).buf, g);
  }

  lemma TimeoutTimesIgnoreFastack(g: Segment, h: Segment, rounds: seq<Round>)
    requires h == g.(fastack := h.fastack)
    ensures TimeoutTimes(h, rounds) == TimeoutTimes(g, rounds)
  {
    if rounds != [] {
      assert Before(h, rounds[0]) == Before(g, rounds[0]);
    }
  }

  /** A number that has left the window never comes back. */
  lemma GoneForGood(e: Endpoint, op: Op, n: nat)
    requires Valid(e) && n < e.snd.nxt && !HasSn(e.snd.buf, n)
    ensures e.cfg.mss > 0 && n < Do(e, op).snd.nxt && !HasSn(Do(e, op).snd.buf, n)
  {
    hide Valid, Do, Admit, Flush, Flushes;
    ValidParts(e);
    DoKeepsValid(e, op);
    if Flushes(e, op) {
      FlushingOp(e, op);
      FlushBringsNothingBack(AtFlush(e, op), n);
    } else {
      QuietOp(e, op);
      if HasSn(Do(e, op).snd.buf, n) {
        SortedWindow(e.snd);
        QuietSegment(e, Do(e, op), n);
      }
    }
  }

  lemma FlushBringsNothingBack(a: Endpoint, n: nat)
    requires a.clk.updated && n < a.snd.nxt && !HasSn(a.snd.buf, n)
    ensures !HasSn(Flush(a).snd.buf, n)
  {
    hide Visit, OnFlush, Admit;
    var s, p := Admitted(a), PaceOf(a);
    ControlKeepsWindow(a);
    AdmitShape(a.snd, WindowLimit(a), StampOf(a));
    forall h | h in Flush(a).snd.buf ensures h.sn != n {
      var i :| 0 <= i < |s.buf| && VisitAll(s.buf, p)[i] == h;
      VisitKeepsShape(s.buf, p, i);
      assert s.buf[i] in s.buf;
    }
  }

  lemma {:induction false} NoMoreRounds(e: Endpoint, ops: seq<Op>, n: nat, time: nat)
    requires Valid(e) && n < e.snd.nxt && !HasSn(e.snd.buf, n)
    ensures e.cfg.mss > 0 && RoundsOf(e, ops, n, time) == [] && TimeoutsOf(e, ops, n, time) == []
    decreases |ops|
  {
    hide Valid, Do, Flushes, HasSn;
    ValidParts(e);
    if ops != [] {
      AtFlushKeeps(e, ops[0]);
      GoneForGood(e, ops[0], n);
      DoKeepsValid(e, ops[0]);
      NoMoreRounds(Do(e, ops[0]), ops[1..], n, TimeAfter(time, ops[0]));
    }
  }

  lemma AtFlushKeeps(e: Endpoint, op: Op)
    requires Valid(e)
    ensures Valid(AtFlush(e, op)) && AtFlush(e, op) == e.(clk := AtFlush(e, op).clk)
  {
    if op.Elapse? {
      TickKeepsValid(e, op.now);
    }
  }

  /** Over a run, the timeouts of a segment are those of the list of flushes that visit it. */
  lemma {:induction false} TimeoutsAreOfRounds(e: Endpoint, ops: seq<Op>, n: nat, time: nat)
    requires Valid(e) && HasSn(e.snd.buf, n) && n < e.snd.nxt
    ensures e.cfg.mss > 0
    ensures TimeoutsOf(e, ops, n, time) == TimeoutTimes(SegmentOf(e.snd.buf, n), RoundsOf(e, ops, n, time))
    decreases |ops|
  {
    hide Valid, Do, Flushes, HasSn, DueOf, Visit, SegmentOf, Flush, Quiet;
    ValidParts(e);
    if ops != [] {
      var op, d := ops[0], Do(e, ops[0]);
      var g, a, at := SegmentOf(e.snd.buf, n), AtFlush(e, op), TimeAfter(time, op);
      AtFlushKeeps(e, op);
      DoKeepsValid(e, op);
      if Flushes(e, op) {
        FlushingOp(e, op);
        AdmittedSegment(a, n);
        FlushedSegment(a, n);
        assert Before(g, Round(PaceOf(a), g.fastack, at)) == g;
        TimeoutsAreOfRounds(d, ops[1..], n, at);
      } else {
        QuietOp(e, op);
        if HasSn(d.snd.buf, n) {
          SortedWindow(e.snd);
          QuietSegment(e, d, n);
          TimeoutsAreOfRounds(d, ops[1..], n, at);
          TimeoutTimesIgnoreFastack(g, SegmentOf(d.snd.buf, n), RoundsOf(d, ops[1..], n, at));
        } else {
          NoMoreRounds(d, ops[1..], n, at);
        }
      }
    }
  }

  // ---------- Retransmission spacing over a run

  /** Without no-delay, with a timeout in its range. */
  predicate Patient(e: Endpoint, m: nat) {
    e.cfg.nodelay == 0 && e.cfg.minRto == m && m <= e.rtt.rto <= RTO_MAX
  }

  lemma AtFlushTime(e: Endpoint, op: Op)
    ensures AtFlush(e, op).clk.current == if op.Elapse? then op.now else e.clk.current
  {
  }

  lemma FlushKeepsRtt(a: Endpoint)
    ensures Flush(a).rtt == a.rtt && Flush(a).clk == a.clk
  {
  }

  lemma DoMovesClock(e: Endpoint, op: Op)
    requires Valid(e)
    ensures e.cfg.mss > 0 && Do(e, op).clk.current == if op.Elapse? then op.now else e.clk.current
  {
    hide Valid, Do, Flushes, Flush;
    ValidParts(e);
    if Flushes(e, op) {
      FlushingOp(e, op);
      AtFlushTime(e, op);
      FlushKeepsRtt(AtFlush(e, op));
    } else {
      QuietOp(e, op);
    }
  }

  lemma DoKeepsPatient(e: Endpoint, op: Op, m: nat)
    requires Valid(e) && Patient(e, m)
    ensures e.cfg.mss > 0 && Patient(Do(e, op), m)
    ensures Do(e, op).clk.current == if op.Elapse? then op.now else e.clk.current
  {
    hide Valid, Do, Flushes, Flush;
    ValidParts(e);
    DoMovesClock(e, op);
    DoKeepsSegmentSize(e, op);
    if Flushes(e, op) {
      FlushingOp(e, op);
      FlushKeepsRtt(AtFlush(e, op));
    } else {
      QuietOp(e, op);
    }
  }

  lemma {:induction false} RoundsAreOrderly(e: Endpoint, ops: seq<Op>, n: nat, time: nat, from: int, m: nat)
    requires Valid(e) && Patient(e, m) && Shows(e, time) && from <= time
    ensures e.cfg.mss > 0 && Orderly(RoundsOf(e, ops, n, time), from, EndTime(time, ops), m)
    decreases |ops|
  {
    hide Valid, Do, Flushes, HasSn, SegmentOf, Later;
    ValidParts(e);
    if ops != [] {
      var op, d, a, at := ops[0], Do(e, ops[0]), AtFlush(e, ops[0]), TimeAfter(time, ops[0]);
      AtFlushKeeps(e, op);
      DoKeepsPatient(e, op, m);
      DoKeepsValid(e, op);
      TimeAfterShows(e, op, time);
      TimeGoesOn(at, ops[1..]);
      RoundsAreOrderly(d, ops[1..], n, at, if Flushes(e, op) && HasSn(a.snd.buf, n) then at else from, m);
    }
  }

  lemma TimeAfterShows(e: Endpoint, op: Op, time: nat)
    requires Shows(e, time)
    ensures Shows(AtFlush(e, op), TimeAfter(time, op)) && TimeAfter(time, op) >= time
    ensures W32(TimeAfter(time, op)) == if op.Elapse? then op.now else e.clk.current
  {
    if op.Elapse? {
      LaterShows(time, op.now);
    }
  }

  /** In every run without no-delay, across wraps of the clock and however many operations it has: if a flush gives
      out number `n` at time t0, the k-th timeout retransmission of that segment comes no earlier than m*k*(k+1)/2
      ms after t0, whatever arrives in between. Time is counted by taking each reading of the clock as the next
      moment that shows it; the run takes less than a segment's lifetime. */
  lemma SpacingOverRun(e: Endpoint, first: Op, ops: seq<Op>, n: nat, m: nat, time: nat, k: nat)
    requires Valid(e) && e.cfg.mss > 0 && Patient(e, m) && Flushes(e, first)
    requires e.snd.nxt <= n < Do(e, first).snd.nxt
    requires Shows(e, time) && EndTime(TimeAfter(time, first), ops) - TimeAfter(time, first) < LIFETIME
    ensures Do(e, first).cfg.mss > 0
    ensures var t0 := TimeAfter(time, first);
            var times := TimeoutsOf(Do(e, first), ops, n, t0);
            1 <= k <= |times| ==> 2 * (times[k - 1] - t0) >= m * k * (k + 1)
  {
    hide Valid, Do, Flushes, Visit, DueOf, HasSn, SegmentOf, Flush, Later;
    var a, d, t0 := AtFlush(e, first), Do(e, first), TimeAfter(time, first);
    FlushingOp(e, first);
    AtFlushKeeps(e, first);
    TimeAfterShows(e, first, time);
    DoKeepsPatient(e, first, m);
    DoKeepsValid(e, first);
    ValidParts(d);
    NewSegment(a, n);
    FlushedSegment(a, n);
    TimeoutsAreOfRounds(d, ops, n, t0);
    RoundsAreOrderly(d, ops, n, t0, t0, m);
    TimeGoesOn(t0, ops);
    var g := SegmentOf(Admitted(a).buf, n);
    var round := Round(PaceOf(a), g.fastack, t0);
    var rounds := [round] + RoundsOf(d, ops, n, t0);
    assert rounds[1..] == RoundsOf(d, ops, n, t0);
    assert Before(g, round) == g;
    FirstIsNoTimeout(g, PaceOf(a));
    assert TimeoutTimes(g, rounds) == [] + TimeoutTimes(Visit(g, PaceOf(a)), RoundsOf(d, ops, n, t0));
    if 1 <= k <= |TimeoutsOf(d, ops, n, t0)| {
      RetransmissionSpacing(g, rounds, EndTime(t0, ops), m, k);
    }
  }

  /** When the readings of the clock never go back, nothing needs to be assumed about how long the run takes, and
      the times are the readings. */
  lemma SpacingOnPlainClock(e: Endpoint, first: Op, ops: seq<Op>, n: nat, m: nat, k: nat)
    requires Valid(e) && e.cfg.mss > 0 && Patient(e, m) && Flushes(e, first)
    requires e.snd.nxt <= n < Do(e, first).snd.nxt
    requires Plain(e.clk.current, [first] + ops)
    ensures Do(e, first).cfg.mss > 0
    ensures var t0 := AtFlush(e, first).clk.current;
            var times := TimeoutsOf(Do(e, first), ops, n, t0);
            1 <= k <= |times| ==> 2 * (times[k - 1] - t0) >= m * k * (k + 1)
  {
    hide Valid, Do, Flushes, Later, TimeoutsOf;
    var time := e.clk.current;
    assert ([first] + ops)[0] == first && ([first] + ops)[1..] == ops;
    Untruncated(time);
    PlainTime(time, [first] + ops);
    AtFlushTime(e, first);
    SpacingOverRun(e, first, ops, n, m, time, k);
  }

  /** A number given out by a flush belongs to a segment that has not been transmitted. */
  lemma NewSegment(a: Endpoint, n: nat)
    requires Valid(a) && a.clk.updated && a.snd.nxt <= n < Flush(a).snd.nxt
    ensures HasSn(Admitted(a).buf, n) && SegmentOf(Admitted(a).buf, n).xmit == 0
  {
    hide Valid, Admit, OnFlush, VisitAll, Sorted, HasSn, SegmentOf;
    ValidParts(a);
    ControlKeepsWindow(a);
    AdmitKeepsSender(a.snd, WindowLimit(a), StampOf(a));
    var g := AdmittedNumber(a.snd, WindowLimit(a), StampOf(a), n);
    SortedWindow(Admitted(a));
    OneSegment(Admitted(a).buf, g);
  }

  lemma AdmittedNumber(s: Sender, limit: nat, t: Stamp, n: nat) returns (g: Segment)
    requires SndOk(s) && s.nxt <= n < Admit(s, limit, t).nxt
    ensures g in Admit(s, limit, t).buf && g.sn == n && g.xmit == 0
  {
    hide SndOk, Admit;
    AdmitKeepsSender(s, limit, t);
    AdmitShape(s, limit, t);
    var run := AdmittedRun(s.queue[..Admit(s, limit, t).nxt - s.nxt], s.nxt, t);
    g := run[n - s.nxt];
    assert g in run;
  }

  // ---------- Window probes over a run

  /** The peer's window and the time, as the flushes of a run that begins at time `time` see them. */
  function ViewsOf(e: Endpoint, ops: seq<Op>, time: nat): seq<FlushView>
    requires e.cfg.mss > 0
    decreases |ops|
  {
    if ops == [] then []
    else
      DoKeepsSegmentSize(e, ops[0]);
      var at := TimeAfter(time, ops[0]);
      (if Flushes(e, ops[0]) then [FlushView(AtFlush(e, ops[0]).rmtWnd, at)] else [])
      + ViewsOf(Do(e, ops[0]), ops[1..], at)
  }

  /** The times at which the run hands a window request to the network. */
  function RequestsOf(e: Endpoint, ops: seq<Op>, time: nat): seq<nat>
    requires e.cfg.mss > 0
    decreases |ops|
  {
    if ops == [] then []
    else
      DoKeepsSegmentSize(e, ops[0]);
      var at := TimeAfter(time, ops[0]);
      (if Flushes(e, ops[0]) && Requests(FlushSegments(AtFlush(e, ops[0]))) then [at] else [])
      + RequestsOf(Do(e, ops[0]), ops[1..], at)
  }

  predicate Requests(out: seq<Segment>) {
    exists x :: x in out && x.cmd == CMD_WASK
  }

  lemma RequestIffAsked(a: Endpoint)
    requires Valid(a) && a.clk.updated
    ensures Requests(FlushSegments(a)) <==> ProbeStep(a.probe, a.rmtWnd, a.clk.current).askSend
  {
    hide ProbeStep, DataSegments;
    var p := ProbeStep(a.probe, a.rmtWnd, a.clk.current);
    var t := AfterAcks(Template(a), a.acks);
    var acks := AckSegments(Template(a), a.acks);
    forall x | x in FlushSegments(a) && x.cmd == CMD_WASK ensures p.askSend {
      if x in DataSegments(a) {
        DataIsPush(a, x);
      } else if x in acks {
        AckIsAck(Template(a), a.acks, x);
      }
    }
    if p.askSend {
      assert t.(cmd := CMD_WASK) in ControlSegments(a);
      assert t.(cmd := CMD_WASK) in FlushSegments(a);
    }
  }

  lemma AckIsAck(t: Segment, acks: seq<Ack>, x: Segment)
    requires x in AckSegments(t, acks)
    ensures x.cmd == t.cmd
  {
    var i :| 0 <= i < |acks| && AckSegments(t, acks)[i] == x;
  }

  lemma DataIsPush(a: Endpoint, x: Segment)
    requires Valid(a) && x in DataSegments(a)
    ensures x.cmd == CMD_PUSH
  {
    hide Transmitted, Admit, DueOf;
    var b, p := Admitted(a).buf, PaceOf(a);
    TransmittedMembers(b, p, x);
    var g :| g in b && DueOf(g, p) != NotDue && Visit(g, p) == x;
    var i :| 0 <= i < |b| && b[i] == g;
    AdmittedIsPush(a, i);
  }

  lemma ProbeTimesIgnoreTell(p: Prober, tell: bool, views: seq<FlushView>)
    ensures ProbeTimes(p.(askTell := tell), views) == ProbeTimes(p, views)
  {
    if views != [] {
      assert Cleared(ProbeAt(p.(askTell := tell), views[0])) == Cleared(ProbeAt(p, views[0]));
    }
  }

  /** Over a run, the window requests are those of the probe timer on the flushes it sees. */
  lemma {:induction false} RequestsAreOfProbes(e: Endpoint, ops: seq<Op>, time: nat)
    requires Valid(e) && Shows(e, time)
    ensures e.cfg.mss > 0 && RequestsOf(e, ops, time) == ProbeTimes(e.probe, ViewsOf(e, ops, time))
    decreases |ops|
  {
    hide Valid, Do, Flushes, FlushSegments, Flush, ProbeStep, Later;
    ValidParts(e);
    if ops != [] {
      var op, d, a, at := ops[0], Do(e, ops[0]), AtFlush(e, ops[0]), TimeAfter(time, ops[0]);
      AtFlushKeeps(e, op);
      DoKeepsValid(e, op);
      TimeAfterShows(e, op, time);
      DoMovesClock(e, op);
      RequestsAreOfProbes(d, ops[1..], at);
      if Flushes(e, op) {
        FlushingOp(e, op);
        RequestIffAsked(a);
        FlushProbe(a);
      } else {
        QuietOp(e, op);
        ProbeTimesIgnoreTell(e.probe, d.probe.askTell, ViewsOf(d, ops[1..], at));
        NilAppend(ViewsOf(d, ops[1..], at));
        NilAppend(RequestsOf(d, ops[1..], at));
      }
    }
  }

  lemma FlushProbe(a: Endpoint)
    requires a.clk.updated
    ensures Flush(a).probe == Cleared(ProbeStep(a.probe, a.rmtWnd, a.clk.current))
  {
    hide ProbeStep, OnFlush, VisitAll, Admit, AnyDue, Timeouts;
  }

  /** The peer announces a window of zero to every flush of the run. */
  predicate AlwaysZero(views: seq<FlushView>) {
    forall v :: v in views ==> v.rmtWnd == 0
  }

  lemma {:induction false} ViewsAreAStretch(e: Endpoint, ops: seq<Op>, time: nat, from: int)
    requires e.cfg.mss > 0 && from <= time && AlwaysZero(ViewsOf(e, ops, time))
    ensures Stretch(ViewsOf(e, ops, time), from)
    decreases |ops|
  {
    hide Do, Flushes;
    if ops != [] {
      var at, d := TimeAfter(time, ops[0]), Do(e, ops[0]);
      DoKeepsSegmentSize(e, ops[0]);
      var rest := ViewsOf(d, ops[1..], at);
      if Flushes(e, ops[0]) {
        assert ViewsOf(e, ops, time) == [FlushView(AtFlush(e, ops[0]).rmtWnd, at)] + rest;
        ViewsAreAStretch(d, ops[1..], at, at);
      } else {
        NilAppend(rest);
        ViewsAreAStretch(d, ops[1..], at, from);
      }
    }
  }

  lemma StretchFromStart(views: seq<FlushView>, from: int)
    requires Stretch(views, from) && views != []
    ensures Stretch(views, views[0].at)
  {
  }

  /** In every run whose flushes see a zero peer window, however long it is and however often the clock wraps,
      beginning with the probe timer off: the first window request is handed out at least 7000 ms after the first
      flush, and the (i+1)-th at least 10500 ms, growing by half each time up to 120000 ms, after the i-th. */
  lemma RequestsOverRun(e: Endpoint, ops: seq<Op>, time: nat, i: nat)
    requires Valid(e) && e.cfg.mss > 0 && e.probe.wait == 0 && Shows(e, time)
    requires ViewsOf(e, ops, time) != [] && AlwaysZero(ViewsOf(e, ops, time))
    requires i < |RequestsOf(e, ops, time)|
    ensures var times := RequestsOf(e, ops, time);
            && (i == 0 ==> times[0] - ViewsOf(e, ops, time)[0].at >= PROBE_INIT)
            && (i > 0 ==> times[i] - times[i - 1] >= Ladder(PROBE_INIT, i) >= 10_500)
  {
    hide ViewsOf, RequestsOf, ProbeStep;
    RequestsAreOfProbes(e, ops, time);
    ViewsAreAStretch(e, ops, time, time);
    StretchFromStart(ViewsOf(e, ops, time), time);
    NoRequestAsked(e);
    ZeroWindowProbing(e.probe, ViewsOf(e, ops, time), i);
  }

  lemma NoRequestAsked(e: Endpoint)
    requires Valid(e)
    ensures !e.probe.askSend
  {
  }

  // ---------- The congestion window over a run

  /** The operation is a datagram taken in without error that acknowledged new data. */
  predicate IsAdvancing(e: Endpoint, op: Op)
    requires e.cfg.mss > 0
  {
    op.Arrive? && Input(e, op.bytes).1.Ok? && Input(e, op.bytes).0.snd.una > e.snd.una
  }

  /** The peer's window at each such datagram of the run. */
  function AdvancingWnds(e: Endpoint, ops: seq<Op>): seq<nat>
    requires e.cfg.mss > 0
    decreases |ops|
  {
    if ops == [] then []
    else
      DoKeepsSegmentSize(e, ops[0]);
      (if IsAdvancing(e, ops[0]) then [Do(e, ops[0]).rmtWnd] else []) + AdvancingWnds(Do(e, ops[0]), ops[1..])
  }

  /** No flush of the run changes the congestion window. */
  predicate NoReset(e: Endpoint, ops: seq<Op>)
    requires e.cfg.mss > 0
    decreases |ops|
  {
    ops == [] ||
    (DoKeepsSegmentSize(e, ops[0]);
     (Flushes(e, ops[0]) ==> Flush(AtFlush(e, ops[0])).cc == e.cc) && NoReset(Do(e, ops[0]), ops[1..]))
  }

  lemma InputWindow(e: Endpoint, op: Op)
    requires Valid(e) && op.Arrive?
    ensures e.cfg.mss > 0
    ensures Do(e, op).cc == if IsAdvancing(e, op) then OnAdvance(e.cc, Do(e, op).rmtWnd, e.cfg.mss) else e.cc
  {
    hide Valid, InputLoop, OnAdvance;
    ValidParts(e);
    if |op.bytes| >= OVERHEAD {
      var s := InputLoop(Scan(e, false, 0), op.bytes).0;
      InputLoopKeepsValid(Scan(e, false, 0), op.bytes);
      ConcludeKeepsValid(s, e.snd.una);
    }
  }

  lemma QuietWindow(e: Endpoint, op: Op)
    requires e.cfg.mss > 0 && !op.Arrive? && !Flushes(e, op)
    ensures Do(e, op).cc == e.cc
  {
    hide Drain, Span, Join, PeekSize, Fragment;
  }

  lemma {:induction false} WindowOverRun(e: Endpoint, ops: seq<Op>)
    requires Valid(e) && e.cfg.mss > 0 && NoReset(e, ops)
    ensures DoAll(e, ops).cc == Advances(e.cc, AdvancingWnds(e, ops), e.cfg.mss)
    decreases |ops|
  {
    hide Valid, Do, Flushes, IsAdvancing, OnAdvance, Flush;
    if ops != [] {
      var op, d := ops[0], Do(e, ops[0]);
      DoKeepsValid(e, op);
      DoKeepsSegmentSize(e, op);
      WindowOverRun(d, ops[1..]);
      var rest := AdvancingWnds(d, ops[1..]);
      if op.Arrive? {
        InputWindow(e, op);
        if IsAdvancing(e, op) {
          assert ([d.rmtWnd] + rest)[1..] == rest;
        }
      } else {
        NotAdvancing(e, op);
        if Flushes(e, op) {
          FlushingOp(e, op);
        } else {
          QuietWindow(e, op);
        }
      }
      assert [] + rest == rest;
    }
  }

  lemma NotAdvancing(e: Endpoint, op: Op)
    requires e.cfg.mss > 0 && !op.Arrive?
    ensures !IsAdvancing(e, op)
  {
  }

  /** In every run whose flushes leave the congestion window alone: if its advancing datagrams find the window below
      the peer's, and there are enough of them (16 at the default segment size), the window has grown. */
  lemma GrowthOverRun(e: Endpoint, ops: seq<Op>)
    requires Valid(e) && e.cfg.mss > 0 && NoReset(e, ops)
    requires AlwaysBelow(e.cc, AdvancingWnds(e, ops), e.cfg.mss)
    requires |AdvancingWnds(e, ops)| * (e.cfg.mss / 16) >= e.cfg.mss
    ensures DoAll(e, ops).cc.cwnd >= e.cc.cwnd + 1
  {
    hide AdvancingWnds, AlwaysBelow, DoAll;
    WindowOverRun(e, ops);
    WindowIsOk(e);
    AdvancesRaise(e.cc, AdvancingWnds(e, ops), e.cfg.mss);
  }

  lemma WindowIsOk(e: Endpoint)
    requires Valid(e)
    ensures CcOk(e.cc, e.cfg.mss)
  {
  }
}
