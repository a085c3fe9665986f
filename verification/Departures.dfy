/** Concrete runs on which the program does not do what it is for: a message whose bytes look like a segment, and a
    message that is accepted although it can never be delivered. */
module Departures {
  import opened Machine
  import opened Wire
  import opened Message
  import opened SendWindow
  import opened ReceiveWindow
  import opened Retransmission
  import opened Protocol
  import opened Packing
  import opened Datagram
  import opened Runs
  import opened ByteNetwork
  import Network
  import Recovery

  // ---------- A payload that is taken for a segment

  /** The bytes of a push of number `sn` on connection `conv`, given to `send` as a message. */
  function ForgedPush(conv: u32, sn: u32, data: seq<byte>): Segment {
    BLANK.(conv := conv, cmd := CMD_PUSH, wnd := WND_RCV, sn := sn, data := data)
  }

  /** An endpoint that takes in such a message twice takes in, the second time, a segment that nobody sent. */
  lemma ForgedSegment(e: Endpoint, p: Segment, data: seq<byte>)
    requires e.cfg.mss > 0 && e.rcv == Receiver(0, e.rcv.wnd, [], []) && e.rcv.wnd >= 2
    requires Acceptable(e, p) && p.cmd == CMD_PUSH && p.sn == 0
    requires data != [] && |data| < U32_LIMIT && p.data == Encode(ForgedPush(e.cfg.conv, 1, data))
    ensures var e1 := Input(e, Encode(p)).0;
            e1.cfg == e.cfg && Input(e1, Encode(p)).0.cfg == e.cfg
            && Input(e1, Encode(p)).0.rcv
               == Receiver(2, e.rcv.wnd, [OnWire(p), OnWire(ForgedPush(e.cfg.conv, 1, data))], [])
  {
    hide Encode, Input, Handle, TakeIn, TakeData, HeaderError, SegmentAt;
    var f := ForgedPush(e.cfg.conv, 1, data);
    assert PayloadConsumed(e, p);
    FirstArrival(e, p);
    var e1 := Input(e, Encode(p)).0;
    SecondArrival(e1, p, f);
  }

  /** A push that is expected next, with nothing queued or buffered. */
  lemma TakesNext(r: Receiver, g: Segment)
    requires r.buf == [] && g.sn == r.nxt && |r.queue| < r.wnd
    ensures TakeData(r, g) == Receiver(r.nxt + 1, r.wnd, r.queue + [g], [])
  {
    var m := r.(buf := [g]);
    assert Insert(r.buf, g) == [g];
    assert DrainStep(m) == Receiver(r.nxt + 1, r.wnd, r.queue + [g], []);
    assert Drain(m) == Drain(DrainStep(m)) == DrainStep(m);
  }

  lemma FirstArrival(e: Endpoint, p: Segment)
    requires e.cfg.mss > 0 && Acceptable(e, p) && p.cmd == CMD_PUSH && p.sn == 0
    requires e.rcv == Receiver(0, e.rcv.wnd, [], []) && e.rcv.wnd >= 2
    ensures Input(e, Encode(p)).0.rcv == Receiver(1, e.rcv.wnd, [OnWire(p)], [])
    ensures Input(e, Encode(p)).0.cfg == e.cfg
  {
    hide Input, TakeData, Encode, HandleAll, Conclude;
    assert EncodeAll([p]) == Encode(p) by { assert EncodeAll([p]) == Encode(p) + []; }
    assert AllConsumed(Handle(Scan(e, false, 0), p), []);
    InputUndoesEncode(e, [p]);
    Recovery.InputFrame(e, p, true);
    TakesNext(e.rcv, OnWire(p));
  }

  lemma HandlePush(s: Scan, g: Segment)
    requires g.cmd == CMD_PUSH
    ensures Handle(s, g).e.cfg == s.e.cfg
    ensures Handle(s, g).e.rcv == if g.sn < s.e.rcv.nxt + s.e.rcv.wnd then TakeData(s.e.rcv, OnWire(g)) else s.e.rcv
  {
    hide TakeData, TakeUna;
  }

  lemma SecondArrival(e: Endpoint, p: Segment, f: Segment)
    requires e.cfg.mss > 0 && Acceptable(e, p) && p.cmd == CMD_PUSH && p.sn == 0
    requires e.rcv == Receiver(1, e.rcv.wnd, [OnWire(p)], []) && e.rcv.wnd >= 2
    requires Acceptable(e, f) && f.cmd == CMD_PUSH && f.sn == 1 && p.data == Encode(f) && f.data != []
    ensures Input(e, Encode(p)).0.rcv == Receiver(2, e.rcv.wnd, [OnWire(p), OnWire(f)], [])
    ensures Input(e, Encode(p)).0.cfg == e.cfg
  {
    hide InputLoop, Handle, TakeData, Encode, Conclude, HeaderError, SegmentAt, DecodeHeader;
    var s := Scan(e, false, 0);
    var s1 := Handle(s, p);
    HandlePush(s, p);
    assert TakeData(e.rcv, OnWire(p)) == e.rcv by { BelowWindow(e.rcv, OnWire(p)); }
    LeftBehindAlone(e, p);
    var s2 := Handle(s1, f);
    HandlePush(s1, f);
    TakesNext(e.rcv, OnWire(f));
    ReadAlone(s1, f);
    assert InputLoop(s, Encode(p)) == (s2, Ok([]));
    ConcludeKeepsReceiver(s2, e.snd.una);
  }

  lemma BelowWindow(r: Receiver, g: Segment)
    requires g.sn < r.nxt
    ensures TakeData(r, g) == r
  {
  }

  lemma ReadAlone(s: Scan, f: Segment)
    requires Acceptable(s.e, f) && PayloadConsumed(s.e, f)
    ensures InputLoop(s, Encode(f)) == (Handle(s, f), Ok([]))
  {
    hide Handle, InputLoop, Encode;
    ReadAndGoOn(s, f, []);
    assert Encode(f) + [] == Encode(f);
    InputLoopUnfold(Handle(s, f), []);
  }

  lemma ConcludeKeepsReceiver(s: Scan, oldUna: nat)
    requires s.e.cfg.mss > 0
    ensures Conclude(s, oldUna).rcv == s.e.rcv && Conclude(s, oldUna).cfg == s.e.cfg
  {
  }

  // ---------- The run

  /** Two new endpoints with default settings whose output buffers report their free capacity. */
  function FreshNet(conv: u32): Net {
    var port := Port(BY_CAPACITY, Out([], []));
    Net(Network.World(Fresh(conv), Fresh(conv), {}, {}, [], [], [], []), port, port)
  }

  lemma FreshNetIsInitial(conv: u32)
    ensures Initial(FreshNet(conv))
    ensures OneEach(BY_CAPACITY, Fresh(conv).cfg.mtu, Fresh(conv).cfg.mss) && TravelAlone(FreshNet(conv))
  {
    CapacityIsOneEach();
  }

  lemma OneStep(n: Net, s: Step)
    requires Possible(n, s)
    ensures IsRun(n, [s]) && After(n, [s]) == Next(n, s)
  {
    hide Next;
    assert [s][1..] == [];
    assert IsRun(Next(n, s), []);
  }

  lemma {:induction false} RunAppend(n: Net, x: seq<Step>, y: seq<Step>)
    requires IsRun(n, x) && IsRun(After(n, x), y)
    ensures IsRun(n, x + y) && After(n, x + y) == After(After(n, x), y)
    decreases |x|
  {
    hide Next;
    if x == [] {
      assert x + y == y;
    } else {
      RunAppend(Next(n, x[0]), x[1..], y);
      assert (x + y)[1..] == x[1..] + y;
    }
  }

  lemma Extend(n: Net, steps: seq<Step>, s: Step)
    requires IsRun(n, steps) && Possible(After(n, steps), s)
    ensures IsRun(n, steps + [s]) && After(n, steps + [s]) == Next(After(n, steps), s)
  {
    hide Next, Possible;
    OneStep(After(n, steps), s);
    RunAppend(n, steps, [s]);
  }

  /** A new endpoint that has accepted a message of one fragment. */
  function WithMessage(conv: u32, msg: seq<byte>): Endpoint {
    Fresh(conv).(snd := Sender(0, 0, [BLANK.(data := msg)], []))
  }

  lemma WriteFirst(conv: u32, msg: seq<byte>)
    requires 0 < |msg| <= MTU_DEF - OVERHEAD
    ensures Send(Fresh(conv), msg) == (WithMessage(conv, msg), Ok(|msg|))
  {
    var mss := MTU_DEF - OVERHEAD;
    assert Fragment(mss, msg) == [Piece(0, msg)];
    assert WrapAll([Piece(0, msg)]) == [BLANK.(data := msg)];
    assert [] + WrapAll([Piece(0, msg)]) == [BLANK.(data := msg)];
  }

  /** The first update starts the timer and opens the congestion window, and hands nothing out. */
  function Started(conv: u32, msg: seq<byte>): Endpoint {
    var e := WithMessage(conv, msg);
    e.(clk := Tick(e, 0).0.clk, cc := e.cc.(cwnd := 1, incr := e.cfg.mss))
  }

  lemma FirstUpdate(conv: u32, msg: seq<byte>)
    ensures var e := WithMessage(conv, msg);
            && Flushes(e, Elapse(0)) && Do(e, Elapse(0)) == Started(conv, msg) && HandedOut(e, Elapse(0)) == []
    ensures Started(conv, msg).clk.updated
  {
    var e := Tick(WithMessage(conv, msg), 0).0;
    assert e.clk.updated && Tick(WithMessage(conv, msg), 0).1;
    assert Admitted(e) == e.snd;
    assert VisitAll([], PaceOf(e)) == [];
    assert ControlSegments(e) == [];
    assert DataSegments(e) == [];
  }

  /** The segment that the next flush hands out. */
  function FirstSegmentOut(conv: u32, msg: seq<byte>): Segment {
    var e := Started(conv, msg);
    Visit(Stamped(BLANK.(data := msg), 0, StampOf(e)), PaceOf(e))
  }

  lemma AdmitsFirst(s: Sender, t: Stamp)
    requires |s.queue| == 1 && s.una == s.nxt == 0 && s.buf == []
    ensures Admit(s, 1, t) == Sender(0, 1, [], [Stamped(s.queue[0], 0, t)])
  {
    assert AdmitStep(s, t) == Sender(0, 1, [], [Stamped(s.queue[0], 0, t)]);
    assert Admit(s, 1, t) == Admit(AdmitStep(s, t), 1, t) == AdmitStep(s, t);
  }

  lemma FirstFlush(conv: u32, msg: seq<byte>)
    ensures FlushSegments(Started(conv, msg)) == [FirstSegmentOut(conv, msg)]
  {
    hide Visit, W32;
    var e := Started(conv, msg);
    FirstUpdate(conv, msg);
    var g := Stamped(BLANK.(data := msg), 0, StampOf(e));
    assert WindowLimit(e) == 1;
    AdmitsFirst(e.snd, StampOf(e));
    assert DueOf(g, PaceOf(e)) == First;
    assert Transmitted([g], PaceOf(e)) == [Visit(g, PaceOf(e))] + Transmitted([], PaceOf(e));
    assert ControlSegments(e) == [];
  }

  lemma FirstSegmentLooks(conv: u32, msg: seq<byte>)
    ensures var p := FirstSegmentOut(conv, msg);
            && p.conv == conv && p.cmd == CMD_PUSH && p.frg == 0 && p.sn == 0 && p.una == 0
            && p.wnd == WND_RCV && p.data == msg
  {
  }

  /** The network after the first step, after the second, and after the third. */
  function Queued(conv: u32, msg: seq<byte>): Net {
    var n := FreshNet(conv);
    n.(w := n.w.(a := WithMessage(conv, msg), sentA := [msg]))
  }

  function Open(conv: u32, msg: seq<byte>): Net {
    var n := Queued(conv, msg);
    n.(w := n.w.(a := Started(conv, msg)), a := Port(BY_CAPACITY, Out([], [[]])))
  }

  lemma AfterWrite(conv: u32, msg: seq<byte>)
    requires 0 < |msg| <= MTU_DEF - OVERHEAD
    ensures StepA(FreshNet(conv), Write(msg)) == Queued(conv, msg)
  {
    hide Send;
    WriteFirst(conv, msg);
    assert {} + Network.AsSet([]) == {};
  }

  lemma AfterUpdate(conv: u32, msg: seq<byte>)
    requires 0 < |msg| <= MTU_DEF - OVERHEAD
    ensures StepA(Queued(conv, msg), Elapse(0)) == Open(conv, msg)
  {
    hide Do, Started, Flushes, FlushSegments;
    FirstUpdate(conv, msg);
    FreshNetIsInitial(conv);
    OneSegmentPerDatagram(BY_CAPACITY, MTU_DEF, MTU_DEF - OVERHEAD, Out([], []), []);
    assert [] + [[]] + Singles([]) == [[]];
    assert {} + Network.AsSet([]) == {};
  }

  lemma AfterFlush(conv: u32, msg: seq<byte>)
    requires 0 < |msg| <= MTU_DEF - OVERHEAD
    ensures Started(conv, msg).cfg.mss > 0
    ensures var v := StepA(Open(conv, msg), Push);
            && v.w.b == Fresh(conv) && v.w.sentA == [msg] && v.w.gotB == []
            && Encode(FirstSegmentOut(conv, msg)) in v.a.out.written
  {
    hide Do, FirstSegmentOut, FlushSegments, Tick, Encode, Singles;
    FirstUpdate(conv, msg);
    FirstFlush(conv, msg);
    FirstSegmentLooks(conv, msg);
    FreshNetIsInitial(conv);
    var out := [FirstSegmentOut(conv, msg)];
    OneSegmentPerDatagram(BY_CAPACITY, MTU_DEF, MTU_DEF - OVERHEAD, Out([], [[]]), out);
    SinglesMembers(out, Encode(out[0]));
    assert out[0] in out;
  }

  /** After `send`, one update and one flush, the message is on its way. */
  lemma FirstMessageIsSent(conv: u32, msg: seq<byte>) returns (steps: seq<Step>)
    requires 0 < |msg| <= MTU_DEF - OVERHEAD
    ensures IsRun(FreshNet(conv), steps)
    ensures var v := After(FreshNet(conv), steps);
            && v.w.b == Fresh(conv) && v.w.sentA == [msg] && v.w.gotB == []
            && Encode(FirstSegmentOut(conv, msg)) in v.a.out.written
  {
    hide Started, FirstSegmentOut, Encode, StepA;
    var n := FreshNet(conv);
    AfterWrite(conv, msg);
    AfterUpdate(conv, msg);
    AfterFlush(conv, msg);
    steps := [Step(true, Write(msg))];
    OneStep(n, steps[0]);
    Extend(n, steps, Step(true, Elapse(0)));
    steps := steps + [Step(true, Elapse(0))];
    Extend(n, steps, Step(true, Push));
    steps := steps + [Step(true, Push)];
  }

  /** Reading takes a whole single-fragment message from the front of the queue. */
  lemma ReadsFront(e: Endpoint, g: Segment, rest: seq<Segment>, capacity: nat)
    requires e.rcv.queue == [g] + rest && e.rcv.buf == [] && g.frg == 0 && |g.data| <= capacity
    ensures Recv(e, capacity).1 == Ok(g.data)
    ensures Recv(e, capacity).0.rcv == e.rcv.(queue := rest) && Recv(e, capacity).0.cfg == e.cfg
  {
    var q := Pieces(e.rcv.queue);
    assert q[0] == PieceOf(g);
    assert q[..1] == [PieceOf(g)];
    assert Join([PieceOf(g)]) == g.data + Join([]) == g.data;
    assert e.rcv.queue[1..] == rest;
  }

  /** A datagram of A arrives at B. */
  lemma ArriveAtB(n: Net, steps: seq<Step>, d: seq<byte>) returns (more: seq<Step>)
    requires IsRun(n, steps) && d in After(n, steps).a.out.written && After(n, steps).w.b.cfg.mss > 0
    ensures IsRun(n, more)
    ensures var v := After(n, steps); After(n, more) == v.(w := v.w.(b := Input(v.w.b, d).0))
  {
    hide Input, StepA;
    var s := Step(false, Arrive(d));
    Extend(n, steps, s);
    ArrivalStep(Flip(After(n, steps)), d);
    more := steps + [s];
  }

  /** The application of B reads a message. */
  lemma ReadAtB(n: Net, steps: seq<Step>, capacity: nat, msg: seq<byte>) returns (more: seq<Step>)
    requires IsRun(n, steps) && After(n, steps).w.b.cfg.mss > 0
    requires Recv(After(n, steps).w.b, capacity).1 == Ok(msg)
    ensures IsRun(n, more)
    ensures var v := After(n, steps);
            After(n, more) == v.(w := v.w.(b := Recv(v.w.b, capacity).0, gotB := v.w.gotB + [msg]))
  {
    hide Recv, StepA;
    var s := Step(false, Read(capacity));
    Extend(n, steps, s);
    PlainStep(Flip(After(n, steps)), Read(capacity));
    ReadKeepsPorts(Flip(After(n, steps)), capacity);
    more := steps + [s];
  }

  lemma ReadKeepsPorts(n: Net, capacity: nat)
    requires n.w.a.cfg.mss > 0
    ensures var v := StepA(n, Read(capacity)); v.a == n.a && v.b == n.b
  {
  }

  /** The two arrivals and the two reads. */
  lemma TwiceAndRead(n: Net, before: seq<Step>, p: Segment, data: seq<byte>) returns (steps: seq<Step>)
    requires IsRun(n, before) && data != [] && |data| <= MTU_DEF - 2 * OVERHEAD
    requires var v := After(n, before);
             && v.w.b.cfg.mss > 0 && v.w.b.rcv == Receiver(0, WND_RCV, [], []) && v.w.gotB == []
             && Acceptable(v.w.b, p) && p.cmd == CMD_PUSH && p.sn == 0 && p.frg == 0
             && p.data == Encode(ForgedPush(v.w.b.cfg.conv, 1, data)) && Encode(p) in v.a.out.written
    ensures IsRun(n, steps)
    ensures var v, u := After(n, before), After(n, steps);
            u.w.sentA == v.w.sentA && u.w.gotB == [p.data, data]
  {
    hide Encode, Recv, Input, Acceptable, IsRun, After;
    var v, d := After(n, before), Encode(p);
    var f := ForgedPush(v.w.b.cfg.conv, 1, data);
    ForgedSegment(v.w.b, p, data);
    var e1 := Input(v.w.b, d).0;
    var e2 := Input(e1, d).0;
    ReadsFront(e2, OnWire(p), [OnWire(f)], MTU_DEF);
    ReadsFront(Recv(e2, MTU_DEF).0, OnWire(f), [], MTU_DEF);
    steps := ArriveAtB(n, before, d);
    steps := ArriveAtB(n, steps, d);
    steps := ReadAtB(n, steps, MTU_DEF, p.data);
    steps := ReadAtB(n, steps, MTU_DEF, data);
  }

  /** End-to-end safety fails for a message that looks like a segment: one repetition of its datagram makes the peer
      return a second message that was never sent, whatever its bytes. */
  lemma ForgedMessage(conv: u32, data: seq<byte>) returns (steps: seq<Step>)
    requires 0 < |data| <= MTU_DEF - 2 * OVERHEAD
    ensures Initial(FreshNet(conv)) && IsRun(FreshNet(conv), steps)
    ensures var w := After(FreshNet(conv), steps).w;
            var msg := Encode(ForgedPush(conv, 1, data));
            w.sentA == [msg] && w.gotB == [msg, data] && !(w.gotB <= w.sentA)
  {
    hide FirstSegmentOut, Encode, Initial, IsRun, After;
    var msg := Encode(ForgedPush(conv, 1, data));
    FreshNetIsInitial(conv);
    steps := FirstMessageIsSent(conv, msg);
    FirstSegmentLooks(conv, msg);
    steps := TwiceAndRead(FreshNet(conv), steps, FirstSegmentOut(conv, msg), data);
  }

  // ---------- A message that is accepted but cannot be delivered

  /** Between endpoints with default settings, `send` accepts every message of up to 255 * 1376 bytes. */
  lemma OversizeIsAccepted(conv: u32, msg: seq<byte>)
    requires 32 * 1376 < |msg| <= 255 * 1376
    ensures Send(Fresh(conv), msg).1 == Ok(|msg|)
    ensures 33 <= Count(1376, |msg|) <= 255
  {
    hide Fragment;
    CountIsCeiling(1376, |msg|);
  }

  /** A message of 33 fragments. */
  lemma ThirtyThreeFragments(conv: u32)
    ensures var msg: seq<byte> := seq(32 * 1376 + 1, i => 0);
            Send(Fresh(conv), msg).1 == Ok(|msg|) && Count(1376, |msg|) == 33
  {
    OversizeIsAccepted(conv, seq(32 * 1376 + 1, i => 0));
  }

  /** But in no run is a message of more than 32 * 1376 bytes ever returned, nor any message behind it. */
  lemma OversizeIsNeverRead(conv: u32, alone: bool, steps: seq<Step>, i: nat)
    requires LegibleRun(FreshNet(conv), alone, steps)
    requires i < |After(FreshNet(conv), steps).w.sentA| && |After(FreshNet(conv), steps).w.sentA[i]| > 32 * 1376
    ensures |After(FreshNet(conv), steps).w.gotB| <= i
  {
    hide IsRun, Legible, ByteInv, Network.Initial, Network.IsRun, Network.Inv, Initial, OneEach;
    var n := FreshNet(conv);
    var moves := BytesRefineSegments(n, alone, steps);
    EndToEndSafety(n, alone, steps);
    Recovery.InitialFits(n.w);
    Recovery.RunFits(n.w, moves);
    var w := After(n, steps).w;
    if |w.gotB| > i {
      assert w.gotB[i] == w.sentA[i];
      TooLong(|w.gotB[i]|);
    }
  }

  lemma TooLong(n: nat)
    requires n > 32 * 1376
    ensures Count(1376, n) > 32
  {
    CountIsCeiling(1376, n);
  }
}
