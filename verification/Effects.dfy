/** What the operations of an endpoint do, said without the functions that compute it: in the numerals of the wire
    format, in the fields before and after, and in the segments handed out. */
module Effects {
  import opened Machine
  import opened Wire
  import opened Message
  import opened SendWindow
  import opened ReceiveWindow
  import opened RttEstimator
  import opened CongestionWindow
  import opened Retransmission
  import opened WindowProbe
  import opened Timer
  import opened Protocol
  import opened Datagram
  import opened Delivery
  import Link

  // ---------- Sending a message

  /** The answer to `send`: everything from one byte to 255 full segments is accepted, nothing else. */
  lemma SendAnswer(e: Endpoint, msg: seq<byte>)
    requires e.cfg.mss > 0
    ensures var (d, r) := Send(e, msg);
            && r == (if 0 < |msg| <= 255 * e.cfg.mss then Ok(|msg|) else Err(InvalidInput))
            && (r.Err? ==> d == e)
            && d == e.(snd := e.snd.(queue := d.snd.queue)) && e.snd.queue <= d.snd.queue
  {
    hide Fragment;
    if msg != [] {
      CountAtMost(e.cfg.mss, |msg|, 255);
    }
  }

  lemma CountAtMost(mss: nat, n: nat, limit: nat)
    requires mss > 0 && n > 0
    ensures Count(mss, n) <= limit <==> n <= limit * mss
  {
    hide Count;
    CountIsCeiling(mss, n);
    var c := Count(mss, n);
    if c <= limit {
      Monotone(c, limit, mss);
    } else {
      Monotone(limit, c - 1, mss);
    }
  }

  /** What an accepted message leaves in the queue: its consecutive blocks of mss bytes, none empty, counting down to
      zero. */
  lemma SendQueues(e: Endpoint, msg: seq<byte>, i: nat)
    requires e.cfg.mss > 0 && 0 < |msg| <= 255 * e.cfg.mss
    ensures var was, q, mss := |e.snd.queue|, Send(e, msg).0.snd.queue, e.cfg.mss;
            var n := |q| - was;
            && n > 0 && (n - 1) * mss < |msg| <= n * mss
            && (i < n ==>
                  && 0 <= i * mss <= Min((i + 1) * mss, |msg|)
                  && q[was + i].data == msg[i * mss..Min((i + 1) * mss, |msg|)] && q[was + i].frg == n - 1 - i)
  {
    hide Fragment, Count;
    var mss := e.cfg.mss;
    SendAnswer(e, msg);
    CountAtMost(mss, |msg|, 255);
    CountIsCeiling(mss, |msg|);
    FragmentShape(mss, msg, i);
    Link.FragmentsFitByte(mss, msg);
    var w := WrapAll(Fragment(mss, msg));
    if i < |w| {
      assert Pieces(w)[i] == Fragment(mss, msg)[i];
    }
  }

  // ---------- Reading a message

  /** The answer to `recv`, whatever is in the queue and whoever put it there: it takes the fragments up to the first
      one that counts zero. */
  lemma RecvAnswer(e: Endpoint, capacity: nat) returns (k: nat)
    ensures var q, (d, r) := e.rcv.queue, Recv(e, capacity);
            && (r == Err(EndOfFile) <==> q == [])
            && (r == Err(UnexpectedEof) <==> q != [] && q[0].frg > 0 && |q| < (q[0].frg + 1) % 256)
            && (r.Err? ==> d == e && r.error in {EndOfFile, UnexpectedEof, InvalidInput})
            && k <= |q| && (q != [] ==> k > 0)
            && (forall i :: 0 <= i < k - 1 ==> q[i].frg != 0) && (0 < k < |q| ==> q[k - 1].frg == 0)
            && (r.Ok? ==> r.value == Join(Pieces(q)[..k]) && d.rcv == Take(e.rcv, k) && |r.value| <= capacity)
            && (r == Err(InvalidInput) ==> |Join(Pieces(q)[..k])| > capacity)
  {
    hide Take, Join;
    var p := Pieces(e.rcv.queue);
    assert |p| == |e.rcv.queue|;
    k := Span(p);
    assert forall i :: 0 <= i < |p| ==> p[i].frg == e.rcv.queue[i].frg;
    SpanMeaning(p);
    if PeekSize(p).Some? {
      PeekAgreesWithTake(p);
    }
  }

  lemma {:induction false} SpanMeaning(p: seq<Piece>)
    ensures p != [] ==> Span(p) > 0
    ensures forall i :: 0 <= i < Span(p) - 1 ==> p[i].frg != 0
    ensures 0 < Span(p) < |p| ==> p[Span(p) - 1].frg == 0
  {
    if p != [] && p[0].frg != 0 {
      SpanMeaning(p[1..]);
      assert forall i :: 1 <= i < |p| ==> p[i] == p[1..][i - 1];
    }
  }

  /** A successful read changes the receive window and nothing else, except that it owes the peer an announcement when
      it makes room in a full queue. */
  lemma RecvTells(e: Endpoint, capacity: nat)
    requires Recv(e, capacity).1.Ok?
    ensures var d := Recv(e, capacity).0;
            && d == e.(rcv := d.rcv, probe := e.probe.(askTell := d.probe.askTell))
            && (d.probe.askTell <==>
                  e.probe.askTell || (|e.rcv.queue| >= e.rcv.wnd && |d.rcv.queue| < d.rcv.wnd))
  {
    hide Take, Join, Span, PeekSize;
  }

  // ---------- Taking in a segment

  /** How old a reading of the clock is, when it is not ahead. */
  function Ages(current: u32, ts: u32): seq<u32> {
    var age := W32(current - ts);
    if age < 0x8000_0000 then [age] else []
  }

  /** The samples that a list of segments gives: the ages of its acknowledgements, in order. */
  function Samples(current: u32, segs: seq<Segment>): seq<u32> {
    if segs == [] then []
    else (if segs[0].cmd == 82 then Ages(current, segs[0].ts) else []) + Samples(current, segs[1..])
  }

  /** One segment, field by field, outside the two windows. */
  lemma HandleFields(s: Scan, g: Segment)
    ensures var d, e := Handle(s, g), s.e;
            && d.e == e.(rmtWnd := g.wnd, snd := d.e.snd, rcv := d.e.rcv, acks := d.e.acks, rtt := d.e.rtt,
                         probe := e.probe.(askTell := e.probe.askTell || g.cmd == 83))
            && d.e.acks == e.acks + (if g.cmd == 81 && g.sn < e.rcv.nxt + e.rcv.wnd then [Ack(g.sn, g.ts)] else [])
            && (g.cmd != 81 ==> d.e.rcv == e.rcv)
            && d.e.rtt == TakeSamples(e.rtt, Samples(e.clk.current, [g]), e.cfg.interval, e.cfg.minRto)
            && d.acked == (s.acked || g.cmd == 82)
            && d.maxAck == if g.cmd == 82 then (if s.acked && s.maxAck > g.sn then s.maxAck else g.sn) else s.maxAck
  {
    hide TakeUna, TakeAck, TakeData, TakeSample, W32;
    assert Samples(s.e.clk.current, [g])
        == (if g.cmd == 82 then Ages(s.e.clk.current, g.ts) else []) + Samples(s.e.clk.current, []);
    SampleTaken(s.e, g.ts);
  }

  lemma SampleTaken(e: Endpoint, ts: u32)
    ensures TakeTiming(e, ts)
         == e.(rtt := TakeSamples(e.rtt, Ages(e.clk.current, ts) + [], e.cfg.interval, e.cfg.minRto))
  {
    hide TakeSample;
    var age := W32(e.clk.current - ts);
    assert Ages(e.clk.current, ts) + [] == Ages(e.clk.current, ts);
    if age < I32_LIMIT {
      assert TimeDiff(e.clk.current, ts) == age;
      assert TakeSamples(e.rtt, [age], e.cfg.interval, e.cfg.minRto)
          == TakeSamples(TakeSample(e.rtt, age, e.cfg.interval, e.cfg.minRto), [], e.cfg.interval, e.cfg.minRto) by {
        assert [age][1..] == [];
      }
    }
  }

  /** What one segment takes out of the send window: everything below its cumulative number, and, if it is an
      acknowledgement, its own number. */
  lemma HandleSends(s: Scan, g: Segment)
    requires SndOk(s.e.snd)
    ensures var t, u := s.e.snd, Handle(s, g).e.snd;
            && (forall x :: x in u.buf <==> x in t.buf && x.sn >= g.una && !(g.cmd == 82 && x.sn == g.sn))
            && u.nxt == t.nxt && u.queue == t.queue
            && u.una == if u.buf == [] then u.nxt else u.buf[0].sn
  {
    hide KeepFrom, Without, TakeData, TakeSample;
    UnaIsAcknowledged(s.e.snd, g.una);
    AckRemovesOne(TakeUna(s.e.snd, g.una), g.sn);
  }

  /** What one segment brings to the receive window: nothing, unless it is a push inside the window. */
  lemma HandleReceives(s: Scan, g: Segment, n: nat)
    requires RcvOk(s.e.rcv)
    ensures Received(Handle(s, g).e.rcv, n) <==>
            Received(s.e.rcv, n) || (g.cmd == 81 && n == g.sn && s.e.rcv.nxt <= n < s.e.rcv.nxt + s.e.rcv.wnd)
  {
    hide TakeUna, TakeAck, TakeSample, TakeData, Received;
    TakeDataReceives(s.e.rcv, OnWire(g), n);
  }

  /** The end of a datagram: every segment still in the window and below the largest number acknowledged has been
      skipped once more, and the congestion window takes a step exactly when the datagram acknowledged new data. */
  lemma ConcludeFields(s: Scan, oldUna: nat, i: nat)
    requires s.e.cfg.mss > 0
    ensures var d, e := Conclude(s, oldUna), s.e;
            && d == e.(snd := e.snd.(buf := d.snd.buf), cc := d.cc) && |d.snd.buf| == |e.snd.buf|
            && (i < |e.snd.buf| ==>
                  var x := e.snd.buf[i];
                  d.snd.buf[i] == x.(fastack := x.fastack +
                    if s.acked && e.snd.una <= s.maxAck < e.snd.nxt && x.sn < s.maxAck then 1 else 0))
            && d.cc == if e.snd.una > oldUna then OnAdvance(e.cc, e.rmtWnd, e.cfg.mss) else e.cc
  {
    hide OnAdvance;
  }

  lemma {:induction false} HandleAllSamples(s: Scan, segs: seq<Segment>)
    ensures var e, d := s.e, HandleAll(s, segs).e;
            && d.cfg == e.cfg && d.clk == e.clk
            && d.rtt == TakeSamples(e.rtt, Samples(e.clk.current, segs), e.cfg.interval, e.cfg.minRto)
    decreases |segs|
  {
    hide Handle, TakeSample, Ages;
    if segs != [] {
      var g, t := segs[0], Handle(s, segs[0]);
      HandleFields(s, g);
      HandleAllSamples(t, segs[1..]);
      var first := if g.cmd == 82 then Ages(s.e.clk.current, g.ts) else [];
      assert Samples(s.e.clk.current, [g]) == first + Samples(s.e.clk.current, []);
      assert first + [] == first;
      SamplesAppend(s.e.rtt, first, Samples(s.e.clk.current, segs[1..]), s.e.cfg.interval, s.e.cfg.minRto);
    }
  }

  lemma {:induction false} SamplesAppend(r: Rtt, a: seq<u32>, b: seq<u32>, interval: u32, minRto: u32)
    ensures TakeSamples(r, a + b, interval, minRto)
         == TakeSamples(TakeSamples(r, a, interval, minRto), b, interval, minRto)
    decreases |a|
  {
    hide TakeSample;
    if a == [] {
      assert a + b == b;
    } else {
      SamplesAppend(TakeSample(r, a[0], interval, minRto), a[1..], b, interval, minRto);
      assert (a + b)[1..] == a[1..] + b;
    }
  }

  /** The samples of a datagram: the estimator is given the age of each acknowledgement that is not ahead of the clock,
      in order, and nothing else. */
  lemma InputSamples(e: Endpoint, segs: seq<Segment>)
    requires e.cfg.mss > 0 && segs != [] && AllConsumed(Scan(e, false, 0), segs)
    ensures Input(e, EncodeAll(segs)).0.rtt
         == TakeSamples(e.rtt, Samples(e.clk.current, segs), e.cfg.interval, e.cfg.minRto)
  {
    hide AllConsumed, EncodeAll, HandleAll, InputLoop, Samples, TakeSamples;
    InputUndoesEncode(e, segs);
    HandleAllSamples(Scan(e, false, 0), segs);
    var s := HandleAll(Scan(e, false, 0), segs);
    ConcludeFields(s, e.snd.una, 0);
  }

  /** An acknowledgement sent `k` ms ago is a sample of `k` ms; one from ahead of the clock, and any other command, is
      none. */
  lemma InputSample(e: Endpoint, g: Segment, k: nat)
    requires e.cfg.mss > 0 && Acceptable(e, g) && (g.data == [] || Stops(e.cfg.conv, g.data))
    requires k < 0x8000_0000
    ensures g.cmd == 82 && g.ts == W32(e.clk.current - k) ==>
              Input(e, Encode(g)).0.rtt == TakeSample(e.rtt, k, e.cfg.interval, e.cfg.minRto)
    ensures g.cmd == 82 && g.ts == W32(e.clk.current + k + 1) ==> Input(e, Encode(g)).0.rtt == e.rtt
    ensures g.cmd != 82 ==> Input(e, Encode(g)).0.rtt == e.rtt
  {
    hide Handle, TakeSample, Encode, Input, W32;
    var s := Scan(e, false, 0);
    SingleArrives(e, g);
    OneHandled(s, g);
    HandleFields(s, g);
    ConcludeFields(Handle(s, g), e.snd.una, 0);
    var ages := Ages(e.clk.current, g.ts);
    assert Samples(e.clk.current, [g]) == (if g.cmd == 82 then ages else []) + Samples(e.clk.current, []);
    assert ages + [] == ages;
    AgeOf(e.clk.current, k);
    assert TakeSamples(e.rtt, [k], e.cfg.interval, e.cfg.minRto)
        == TakeSample(e.rtt, k, e.cfg.interval, e.cfg.minRto) by { assert [k][1..] == []; }
  }

  lemma AgeOf(current: u32, k: nat)
    requires k < 0x8000_0000
    ensures Ages(current, W32(current - k)) == [k]
    ensures Ages(current, W32(current + k + 1)) == []
  {
    assert W32(current - W32(current - k)) == k;
    assert W32(current - W32(current + k + 1)) == U32_LIMIT - k - 1;
  }

  // ---------- Refusing a datagram

  /** Why a header is refused, by the bytes of it: another connection, more payload than there is, an unknown command,
      in that order. */
  lemma HeaderRefused(conv: u32, b: seq<byte>)
    requires |b| >= 24
    ensures HeaderError(conv, b) ==
            if LittleWord(b, 0) != conv then Some(InvalidData)
            else if |b| - 24 < LittleWord(b, 20) then Some(UnexpectedEof)
            else if b[4] < 81 || b[4] > 84 then Some(InvalidData)
            else None
  {
    hide DecodeHeader;
    HeaderByPosition(b);
  }

  /** A datagram whose first header is missing or refused changes nothing. */
  lemma InputRefused(e: Endpoint, b: seq<byte>)
    requires e.cfg.mss > 0
    ensures |b| < 24 ==> Input(e, b) == (e, Err(InvalidData))
    ensures |b| >= 24 && LittleWord(b, 0) != e.cfg.conv ==> Input(e, b) == (e, Err(InvalidData))
    ensures |b| >= 24 && LittleWord(b, 0) == e.cfg.conv && |b| - 24 < LittleWord(b, 20) ==>
              Input(e, b) == (e, Err(UnexpectedEof))
    ensures |b| >= 24 && LittleWord(b, 0) == e.cfg.conv && |b| - 24 >= LittleWord(b, 20) && (b[4] < 81 || b[4] > 84) ==>
              Input(e, b) == (e, Err(InvalidData))
  {
    hide InputLoop, LittleWord, HeaderError;
    if |b| >= 24 {
      HeaderRefused(e.cfg.conv, b);
      InputLoopUnfold(Scan(e, false, 0), b);
    }
  }

  // ---------- A flush: what is given out

  /** The smallest of the windows in force. */
  predicate Allows(e: Endpoint, w: nat) {
    && w <= e.cfg.sndWnd && w <= e.rmtWnd && (e.cfg.nocwnd || w <= e.cc.cwnd)
    && (w == e.cfg.sndWnd || w == e.rmtWnd || (!e.cfg.nocwnd && w == e.cc.cwnd))
  }

  lemma WindowInForce(e: Endpoint) returns (w: nat)
    ensures Allows(e, w) && w == WindowLimit(e)
  {
    w := WindowLimit(e);
  }

  lemma OneWindow(e: Endpoint, w: nat, v: nat)
    requires Allows(e, w) && Allows(e, v)
    ensures w == v
  {
  }

  /** A flush gives out as many numbers as queue and windows allow: it leaves nothing queued, or fills the send
      window, the peer's window or, when in force, the congestion window as it was; with `w` the smallest of them,
      exactly so many numbers that `una + w` is reached. The queue loses what is given out. */
  lemma FlushFills(e: Endpoint, w: nat)
    requires Valid(e) && e.clk.updated && Allows(e, w)
    ensures var d := Flush(e);
            var given := d.snd.nxt - e.snd.nxt;
            && given == Min(|e.snd.queue|, Max(0, e.snd.una + w - e.snd.nxt))
            && d.snd.queue == e.snd.queue[given..] && d.snd.una == e.snd.una
            && (|| d.snd.queue == []
                || d.snd.nxt >= e.snd.una + e.cfg.sndWnd
                || d.snd.nxt >= e.snd.una + e.rmtWnd
                || (!e.cfg.nocwnd && d.snd.nxt >= e.snd.una + e.cc.cwnd))
  {
    hide Valid, SndOk, Admit, Admitted, Flush, WindowLimit;
    ValidParts(e);
    FlushedWindow(e);
    var v := WindowInForce(e);
    OneWindow(e, w, v);
    FillsUp(e.snd, v, StampOf(e));
    AdmitShape(e.snd, v, StampOf(e));
  }

  lemma FillsUp(s: Sender, limit: nat, t: Stamp)
    requires SndOk(s)
    ensures var u := Admit(s, limit, t); var given := u.nxt - s.nxt;
            && given == Min(|s.queue|, Max(0, s.una + limit - s.nxt)) && u.una == s.una
            && (u.queue == [] || u.nxt >= s.una + limit)
  {
    hide SndOk, Admit, Min, Max;
    AdmitKeepsSender(s, limit, t);
    QueueShrinks(s, limit, t);
    AsManyAs(Admit(s, limit, t).nxt - s.nxt, |s.queue|, s.una + limit - s.nxt);
  }

  lemma QueueShrinks(s: Sender, limit: nat, t: Stamp)
    ensures var u := Admit(s, limit, t); |u.queue| == |s.queue| - (u.nxt - s.nxt)
  {
    hide Admit;
    AdmitShape(s, limit, t);
  }

  lemma AsManyAs(given: nat, queued: nat, room: int)
    requires given <= queued && (given > 0 ==> given <= room) && (given == queued || given >= room)
    ensures given == Min(queued, Max(0, room))
  {
  }

  lemma FlushedWindow(e: Endpoint)
    requires e.clk.updated
    ensures var d, s := Flush(e).snd, Admit(e.snd, WindowLimit(e), StampOf(e));
            d == s.(buf := d.buf)
  {
    hide Admit, OnFlush, VisitAll, ProbeStep, AnyDue, Timeouts;
    ControlKeepsWindow(e);
    LimitIgnoresControl(e);
  }

  lemma LimitIgnoresControl(e: Endpoint)
    ensures WindowLimit(ControlSent(e)) == WindowLimit(e)
  {
  }

  /** The header that every segment of a flush carries: the connection, the room left in the receive queue and the next
      number expected. */
  predicate FromHere(e: Endpoint, x: Segment) {
    x.conv == e.cfg.conv && x.wnd == e.rcv.wnd - |e.rcv.queue| && x.una == e.rcv.nxt
  }

  /** The control segments: an acknowledgement (82) for each number owed, with its time; then a window request (83)
      exactly when the peer's window is zero and the probe timer was running and is reached, and an announcement (84)
      exactly when one is owed, both repeating the last acknowledgement; then the data. Nothing is owed afterwards. */
  lemma FlushControl(e: Endpoint)
    requires Valid(e) && e.clk.updated
    ensures var k, wnd, out := |e.acks|, e.rcv.wnd - |e.rcv.queue|, FlushSegments(e);
            var (sn, ts) := if k == 0 then (0, 0) else (e.acks[k - 1].sn, e.acks[k - 1].ts);
            var ask := e.rmtWnd == 0 && e.probe.wait > 0 && TimeDiff(e.clk.current, e.probe.ts) >= 0;
            && wnd >= 0 && |out| >= k
            && (forall i :: 0 <= i < k ==>
                  out[i] == Segment(e.cfg.conv, 82, 0, wnd, e.acks[i].ts, e.acks[i].sn, e.rcv.nxt, 0, 0, 0, 0, []))
            && out[k..] == (if ask then [Segment(e.cfg.conv, 83, 0, wnd, ts, sn, e.rcv.nxt, 0, 0, 0, 0, [])] else [])
                         + (if e.probe.askTell then [Segment(e.cfg.conv, 84, 0, wnd, ts, sn, e.rcv.nxt, 0, 0, 0, 0, [])]
                            else [])
                         + DataSegments(e)
    ensures Flush(e).acks == [] && !Flush(e).probe.askSend && !Flush(e).probe.askTell
  {
    hide DataSegments, AckSegments, ProbeSegments, AfterAcks, Template, ProbeStep, TimeDiff, Flush;
    QueueFits(e);
    AcksLayout(e);
    ProbesLayout(e);
    NothingOwed(e);
    var t := Template(e);
    var acks := AckSegments(t, e.acks);
    var probes := ProbeSegments(AfterAcks(t, e.acks), ProbeStep(e.probe, e.rmtWnd, e.clk.current));
    assert ((acks + probes) + DataSegments(e))[|acks|..] == probes + DataSegments(e);
  }

  lemma AcksLayout(e: Endpoint)
    requires |e.rcv.queue| <= e.rcv.wnd
    ensures var out := AckSegments(Template(e), e.acks);
            && |out| == |e.acks|
            && forall i :: 0 <= i < |out| ==>
                 out[i] == Segment(e.cfg.conv, 82, 0, e.rcv.wnd - |e.rcv.queue|, e.acks[i].ts, e.acks[i].sn,
                                   e.rcv.nxt, 0, 0, 0, 0, [])
  {
  }

  lemma ProbesLayout(e: Endpoint)
    requires |e.rcv.queue| <= e.rcv.wnd && !e.probe.askSend
    ensures var k, wnd := |e.acks|, e.rcv.wnd - |e.rcv.queue|;
            var (sn, ts) := if k == 0 then (0, 0) else (e.acks[k - 1].sn, e.acks[k - 1].ts);
            var ask := e.rmtWnd == 0 && e.probe.wait > 0 && TimeDiff(e.clk.current, e.probe.ts) >= 0;
            ProbeSegments(AfterAcks(Template(e), e.acks), ProbeStep(e.probe, e.rmtWnd, e.clk.current))
            == (if ask then [Segment(e.cfg.conv, 83, 0, wnd, ts, sn, e.rcv.nxt, 0, 0, 0, 0, [])] else [])
             + (if e.probe.askTell then [Segment(e.cfg.conv, 84, 0, wnd, ts, sn, e.rcv.nxt, 0, 0, 0, 0, [])] else [])
  {
    hide TimeDiff, W32, NextWait;
  }

  lemma NothingOwed(e: Endpoint)
    requires e.clk.updated
    ensures Flush(e).acks == [] && !Flush(e).probe.askSend && !Flush(e).probe.askTell
  {
    hide Admitted, OnFlush, VisitAll, AnyDue, Timeouts, ProbeStep;
  }

  lemma QueueFits(e: Endpoint)
    requires Valid(e)
    ensures |e.rcv.queue| <= e.rcv.wnd && !e.probe.askSend
  {
  }

  /** The timer of a window segment has been reached. */
  predicate RunOut(e: Endpoint, g: Segment) {
    TimeDiff(e.clk.current, g.resendts) >= 0
  }

  /** Enough acknowledgements have skipped a window segment, if fast retransmission is on. Off stands for a count that
      none reaches. */
  predicate SkippedOver(e: Endpoint, g: Segment) {
    g.fastack >= if e.cfg.fastresend > 0 then e.cfg.fastresend else 0xFFFF_FFFF
  }

  /** The two fields of a segment's timer: how long, and until when. */
  predicate TimerSet(e: Endpoint, h: Segment, rto: nat, wait: nat) {
    h.rto == rto && h.resendts == W32(e.clk.current + wait)
  }

  lemma WindowSegment(e: Endpoint, i: nat)
    requires Valid(e) && e.clk.updated && i < |Flush(e).snd.buf|
    ensures |Flush(e).snd.buf| == |Admitted(e).buf| == |e.snd.buf| + Flush(e).snd.nxt - e.snd.nxt
    ensures Flush(e).snd.buf[i] == Visit(Admitted(e).buf[i], PaceOf(e))
    ensures Flush(e).snd.buf[i] in DataSegments(e) <==> DueOf(Admitted(e).buf[i], PaceOf(e)) != NotDue
    ensures i < |e.snd.buf| ==> Admitted(e).buf[i] == e.snd.buf[i]
    ensures i >= |e.snd.buf| ==>
              && Flush(e).snd.nxt - e.snd.nxt <= |e.snd.queue|
              && Admitted(e).buf[i] == Stamped(e.snd.queue[i - |e.snd.buf|], e.snd.nxt + i - |e.snd.buf|, StampOf(e))
  {
    hide Valid, Visit, DueOf, Admit, OnFlush, ProbeStep, WindowLimit, Transmitted;
    ControlKeepsWindow(e);
    LimitIgnoresControl(e);
    FlushOrder(e);
    AdmitShape(e.snd, WindowLimit(e), StampOf(e));
  }

  /** What a flush does with a number it gives out: the queued fragment is sent at once as a push (81), and its timer
      set to the timeout, and an eighth of it more without no-delay. */
  lemma FlushFirst(e: Endpoint, i: nat)
    requires Valid(e) && e.clk.updated && |e.snd.buf| <= i < |Flush(e).snd.buf|
    ensures var h, k := Flush(e).snd.buf[i], i - |e.snd.buf|;
            && k < |e.snd.queue|
            && FromHere(e, h) && h.cmd == 81 && h.frg == e.snd.queue[k].frg && h.data == e.snd.queue[k].data
            && h.sn == e.snd.nxt + k && h.ts == e.clk.current && h.xmit == 1 && h.fastack == 0
            && TimerSet(e, h, e.rtt.rto, e.rtt.rto + if e.cfg.nodelay == 0 then e.rtt.rto / 8 else 0)
            && h in DataSegments(e)
  {
    hide Valid, Flush, FlushSegments, DataSegments, Admitted, W32, TimeDiff;
    QueueFits(e);
    WindowSegment(e, i);
  }

  /** What it does with a segment already in the window. When its timer has run out it is sent again and its timeout
      grows by the current one, or by half of it under no-delay; else, when it has been skipped often enough, it is
      sent again with the timeout it has, and the count starts over; else it stays as it is and is not sent. */
  lemma FlushAgain(e: Endpoint, i: nat)
    requires Valid(e) && e.clk.updated && i < |e.snd.buf|
    ensures i < |Flush(e).snd.buf|
    ensures var g, h := e.snd.buf[i], Flush(e).snd.buf[i];
            && h.conv == g.conv && h.cmd == g.cmd && h.frg == g.frg && h.sn == g.sn && h.data == g.data
            && (h in DataSegments(e) <==> RunOut(e, g) || SkippedOver(e, g))
            && (RunOut(e, g) || SkippedOver(e, g) ==>
                  h.xmit == g.xmit + 1 && h.ts == e.clk.current && h.una == e.rcv.nxt
                  && h.wnd == e.rcv.wnd - |e.rcv.queue|)
            && (RunOut(e, g) ==>
                  var rto := g.rto + if e.cfg.nodelay == 0 then e.rtt.rto else e.rtt.rto / 2;
                  h.fastack == g.fastack && TimerSet(e, h, rto, rto))
            && (!RunOut(e, g) && SkippedOver(e, g) ==> h.fastack == 0 && TimerSet(e, h, g.rto, g.rto))
            && (!RunOut(e, g) && !SkippedOver(e, g) ==> h == g)
  {
    hide Valid, Flush, FlushSegments, DataSegments, Admitted, W32, TimeDiff;
    QueueFits(e);
    WindowKept(e);
    WindowSegment(e, i);
    PushedBefore(e, i);
  }

  lemma WindowKept(e: Endpoint)
    requires Valid(e)
    ensures |Flush(e).snd.buf| >= |e.snd.buf|
  {
    hide Valid, Visit, Admit, OnFlush, ProbeStep;
    ControlKeepsWindow(e);
    AdmitShape(e.snd, WindowLimit(e), StampOf(e));
    LimitIgnoresControl(e);
  }

  lemma PushedBefore(e: Endpoint, i: nat)
    requires Valid(e) && i < |e.snd.buf|
    ensures e.snd.buf[i].xmit >= 1
  {
  }

  /** Everything a flush sends as data is in the window afterwards in the form in which it was sent. */
  lemma DataIsOfWindow(e: Endpoint, x: Segment)
    requires Valid(e) && e.clk.updated && x in DataSegments(e)
    ensures x in Flush(e).snd.buf
  {
    hide Valid, Visit, DueOf, Admit, OnFlush, ProbeStep, WindowLimit, Transmitted;
    ControlKeepsWindow(e);
    LimitIgnoresControl(e);
    var b, p := Admitted(e).buf, PaceOf(e);
    TransmittedMembers(b, p, x);
    var g :| g in b && DueOf(g, p) != NotDue && Visit(g, p) == x;
    var i :| 0 <= i < |b| && b[i] == g;
    assert Flush(e).snd.buf[i] == x;
  }

  // ---------- A flush: the congestion window

  /** Some segment of the window is sent again because its timer ran out. */
  predicate Lost(e: Endpoint) {
    exists g :: g in e.snd.buf && RunOut(e, g)
  }

  /** Some segment of the window is sent again because it was skipped. */
  predicate Jumped(e: Endpoint) {
    exists g :: g in e.snd.buf && !RunOut(e, g) && SkippedOver(e, g)
  }

  /** The congestion window after a flush. A lost segment leaves one segment, and half the window in force as
      threshold; a fast retransmission alone leaves half of what is outstanding as threshold and that much and the
      skip count as window; else it stays, but is at least one. No threshold is below two. */
  lemma FlushAdapts(e: Endpoint, w: nat)
    requires Valid(e) && e.clk.updated && Allows(e, w)
    ensures var d, half := Flush(e), w / 2;
            && d.snd.nxt >= e.snd.una
            && (Lost(e) ==> d.cc == Congestion(1, e.cfg.mss, if half < 2 then 2 else half))
            && (!Lost(e) && Jumped(e) ==>
                  var outstanding := (d.snd.nxt - e.snd.una) / 2;
                  var skips := if e.cfg.fastresend > 0 then e.cfg.fastresend else 0xFFFF_FFFF;
                  && d.cc.ssthresh == (if outstanding < 2 then 2 else outstanding)
                  && d.cc.cwnd == d.cc.ssthresh + skips && d.cc.incr == d.cc.cwnd * e.cfg.mss)
            && (!Lost(e) && !Jumped(e) ==>
                  d.cc == if e.cc.cwnd > 0 then e.cc else Congestion(1, e.cfg.mss, e.cc.ssthresh))
  {
    hide Valid, SndOk, Visit, VisitAll, DueOf, Admit, OnFlush, ProbeStep, WindowLimit, Lost, Jumped, Timeouts, AnyDue;
    ValidParts(e);
    ControlKeepsWindow(e);
    LimitIgnoresControl(e);
    var v := WindowInForce(e);
    OneWindow(e, w, v);
    AdmitKeepsSender(e.snd, v, StampOf(e));
    var s, p := Admitted(e), PaceOf(e);
    LostOrJumped(e);
    WindowOk(e);
    FlushMeaning(e.cc, Jumped(e), Lost(e), p.resent, s.nxt - s.una, v, e.cfg.mss);
  }

  lemma WindowOk(e: Endpoint)
    requires Valid(e)
    ensures CcOk(e.cc, e.cfg.mss)
  {
  }

  lemma LostOrJumped(e: Endpoint)
    requires Valid(e)
    ensures AnyDue(Admitted(e).buf, PaceOf(e), Timeout) <==> Lost(e)
    ensures AnyDue(Admitted(e).buf, PaceOf(e), Fast) <==> Jumped(e)
  {
    hide Valid, Admit, TimeDiff;
    var b, p := Admitted(e).buf, PaceOf(e);
    forall g | g in b && DueOf(g, p) in {Timeout, Fast} ensures g in e.snd.buf {
      DueIsOld(e, g);
    }
    forall g | g in e.snd.buf
      ensures g in b && (RunOut(e, g) <==> DueOf(g, p) == Timeout)
      ensures !RunOut(e, g) && SkippedOver(e, g) <==> DueOf(g, p) == Fast
    {
      var i :| 0 <= i < |e.snd.buf| && e.snd.buf[i] == g;
      PushedBefore(e, i);
      AdmitShape(e.snd, WindowLimit(e), StampOf(e));
      assert b[i] == g;
    }
  }

  lemma DueIsOld(e: Endpoint, g: Segment)
    requires g in Admitted(e).buf && g.xmit > 0
    ensures g in e.snd.buf
  {
    AdmitShape(e.snd, WindowLimit(e), StampOf(e));
  }

  /** The numbers of the window whose timers have run out. */
  function RunOutNumbers(e: Endpoint): set<nat> {
    set g | g in e.snd.buf && RunOut(e, g) :: g.sn
  }

  /** The counter of retransmissions counts them. */
  lemma FlushCounts(e: Endpoint)
    requires Valid(e) && e.clk.updated
    ensures Flush(e).xmit == e.xmit + |RunOutNumbers(e)|
  {
    hide Valid, SndOk, Admit, Visit, DueOf, OnFlush, ProbeStep, WindowLimit, TimeDiff;
    ControlKeepsWindow(e);
    LimitIgnoresControl(e);
    AdmitShape(e.snd, WindowLimit(e), StampOf(e));
    ValidParts(e);
    var p, k := PaceOf(e), Admitted(e).nxt - e.snd.nxt;
    var run := AdmittedRun(e.snd.queue[..k], e.snd.nxt, StampOf(e));
    TransmittedAppend(e.snd.buf, run, p);
    NewIsNoTimeout(run, p);
    AllPushedBefore(e);
    SortedOk(e.snd);
    CountTimeouts(e, e.snd.buf);
    assert RunOutNumbers(e) == RunOutIn(e, e.snd.buf);
  }

  lemma SortedOk(s: Sender)
    requires SndOk(s)
    ensures Sorted(s.buf)
  {
  }

  lemma AllPushedBefore(e: Endpoint)
    requires Valid(e)
    ensures forall i :: 0 <= i < |e.snd.buf| ==> e.snd.buf[i].xmit >= 1
  {
  }

  lemma {:induction false} NewIsNoTimeout(run: seq<Segment>, p: Pace)
    requires forall i :: 0 <= i < |run| ==> run[i].xmit == 0
    ensures Timeouts(run, p) == 0
  {
    if run != [] {
      FirstIsNoTimeout(run[0], p);
      NewIsNoTimeout(run[1..], p);
    }
  }

  function RunOutIn(e: Endpoint, buf: seq<Segment>): set<nat> {
    set g | g in buf && RunOut(e, g) :: g.sn
  }

  lemma {:induction false} CountTimeouts(e: Endpoint, buf: seq<Segment>)
    requires Sorted(buf) && forall i :: 0 <= i < |buf| ==> buf[i].xmit >= 1
    ensures Timeouts(buf, PaceOf(e)) == |RunOutIn(e, buf)|
  {
    hide TimeDiff, Sorted;
    hide RunOutIn;
    if buf != [] {
      SortedTail(buf);
      CountTimeouts(e, buf[1..]);
      RunOutFront(e, buf);
    } else {
      assert RunOutIn(e, []) == {} by { NoneRunOut(e); }
    }
  }

  lemma NoneRunOut(e: Endpoint)
    ensures RunOutIn(e, []) == {}
  {
  }

  lemma RunOutFront(e: Endpoint, buf: seq<Segment>)
    requires Sorted(buf) && buf != []
    ensures |RunOutIn(e, buf)| == (if RunOut(e, buf[0]) then 1 else 0) + |RunOutIn(e, buf[1..])|
  {
    hide RunOut, Sorted;
    var g, rest := buf[0], RunOutIn(e, buf[1..]);
    RunOutSplit(e, g, buf[1..]);
    assert buf == [g] + buf[1..];
    FrontIsAlone(buf);
    assert g.sn !in rest;
  }

  lemma RunOutSplit(e: Endpoint, g: Segment, buf: seq<Segment>)
    ensures RunOutIn(e, [g] + buf) == (if RunOut(e, g) then {g.sn} else {}) + RunOutIn(e, buf)
  {
    hide RunOut;
    forall x | x in [g] + buf ensures x == g || x in buf {
    }
    forall n | n in RunOutIn(e, buf) ensures n in RunOutIn(e, [g] + buf) {
      var x :| x in buf && RunOut(e, x) && x.sn == n;
      assert x in [g] + buf;
    }
    assert g in [g] + buf;
  }

  lemma FrontIsAlone(buf: seq<Segment>)
    requires Sorted(buf) && buf != []
    ensures forall x :: x in buf[1..] ==> x.sn != buf[0].sn
  {
    forall x | x in buf[1..] ensures x.sn != buf[0].sn {
      var i :| 0 <= i < |buf[1..]| && buf[1..][i] == x;
      assert buf[i + 1] == x;
    }
  }

  // ---------- An update

  /** An update moves the clock and flushes exactly when the timer was not running, is reached, or is more than ten
      seconds away; and then it sends what a flush sends. */
  lemma UpdateFlushes(e: Endpoint, now: u32)
    requires 0 < e.cfg.interval <= 5000
    ensures var c, (d, out) := e.clk, Update(e, now);
            var diff := TimeDiff(now, c.tsFlush);
            var due := !c.updated || diff >= 0 || diff < -10_000;
            var moved := e.(clk := d.clk);
            && d.clk.current == now && d.clk.updated
            && d == (if due then Flush(moved) else moved) && out == (if due then FlushSegments(moved) else [])
            && d.clk.tsFlush == (if c.updated && -10_000 <= diff < 0 then c.tsFlush
                                 else if c.updated && 0 <= diff < e.cfg.interval then W32(c.tsFlush + e.cfg.interval)
                                 else W32(now + e.cfg.interval))
  {
    hide FlushSegments, Advance, TimeDiff, W32;
    AdvanceExactly(e.clk, e.cfg.interval, now);
    FlushKeepsClock(Tick(e, now).0);
  }

  lemma FlushKeepsClock(e: Endpoint)
    ensures Flush(e).clk == e.clk
  {
  }

  // ---------- Settings

  /** `nodelay`: negative arguments leave a setting alone; with no-delay the least timeout is 30 ms, without it 100
      ms; the interval is held between 10 and 5000 ms. */
  lemma SettingsFields(c: Config, nodelay: int, interval: int, resend: int, nc: bool)
    ensures var d := WithSettings(c, nodelay, interval, resend, nc);
            && d == c.(nodelay := d.nodelay, minRto := d.minRto, interval := d.interval, fastresend := d.fastresend,
                       nocwnd := nc)
            && (nodelay < 0 ==> d.nodelay == c.nodelay && d.minRto == c.minRto)
            && (nodelay == 0 ==> d.nodelay == 0 && d.minRto == 100)
            && (nodelay > 0 ==> d.nodelay == nodelay && d.minRto == 30)
            && (interval < 0 ==> d.interval == c.interval) && (0 <= interval < 10 ==> d.interval == 10)
            && (10 <= interval <= 5000 ==> d.interval == interval) && (interval > 5000 ==> d.interval == 5000)
            && (resend < 0 ==> d.fastresend == c.fastresend) && (resend >= 0 ==> d.fastresend == resend)
  {
  }

  /** A new endpoint: segments of up to 1376 bytes in datagrams of up to 1400, windows of 32, an interval of 100 ms,
      timeouts from 200 ms on and never below 100 ms, fast retransmission off, and nothing sent, received or owed. */
  lemma FreshFields(conv: u32)
    ensures var e := Fresh(conv);
            && e.cfg == Config(conv, 1_400, 1_376, 32, 100, 0, 100, 0, false)
            && e.snd == Sender(0, 0, [], []) && e.rcv == Receiver(0, 32, [], []) && e.acks == []
            && e.rtt == Rtt(0, 0, 200) && e.cc == Congestion(0, 0, 2) && e.rmtWnd == 32
            && e.probe == Prober(0, 0, false, false) && e.clk == Clock(0, 100, false) && e.xmit == 0
  {
  }
}
