/** No reachable state is a dead end. However many segments the network has lost, the two endpoints can still get
    every accepted message through, using only segments handed to the network from now on: retransmission timers,
    acknowledgements, window probes and the congestion window never block each other for good. */
module Recovery {
  import opened Machine
  import opened Wire
  import opened Message
  import opened SendWindow
  import opened ReceiveWindow
  import opened RttEstimator
  import opened CongestionWindow
  import opened Retransmission
  import opened Timer
  import opened WindowProbe
  import opened Protocol
  import opened Datagram
  import opened Link
  import opened Network
  import Confluence

  /** A world, and what each side has handed to the network since some moment. Everything before is lost. */
  datatype Conf = Conf(w: World, newA: set<Segment>, newB: set<Segment>)

  // ---------- Continuations

  /** What a move hands to the network. */
  function Output(w: World, m: Move): seq<Segment> {
    var e := Facing(w, m.atA).a;
    match m.event
    case Elapse(now) => Update(e, now).1
    case Push => FlushSegments(e)
    case _ => []
  }

  /** Nothing more is written, and nothing lost is delivered: what arrives are single segments handed out since, and
      `input` gets as far with each as it does with its bytes. */
  predicate Allowed(c: Conf, m: Move) {
    && Possible(c.w, m) && !m.event.Write?
    && (m.event.Deliver? ==>
          && |m.event.segs| == 1
          && m.event.segs[0] in (if m.atA then c.newB else c.newA)
          && m.event.whole == ReachesEnd(Facing(c.w, m.atA).a, m.event.segs[0]))
  }

  function Moved(c: Conf, m: Move): Conf
    requires Possible(c.w, m)
  {
    var out := AsSet(Output(c.w, m));
    Conf(Next(c.w, m), if m.atA then c.newA + out else c.newA, if m.atA then c.newB else c.newB + out)
  }

  ghost predicate Path(c: Conf, moves: seq<Move>, d: Conf)
    decreases |moves|
  {
    if moves == [] then c == d else Allowed(c, moves[0]) && Path(Moved(c, moves[0]), moves[1..], d)
  }

  ghost predicate Leads(c: Conf, d: Conf) {
    exists moves :: Path(c, moves, d)
  }

  lemma {:induction false} PathAppend(c: Conf, x: seq<Move>, d: Conf, y: seq<Move>, f: Conf)
    requires Path(c, x, d) && Path(d, y, f)
    ensures Path(c, x + y, f)
    decreases |x|
  {
    hide Moved;
    if x == [] {
      assert x + y == y;
    } else {
      PathAppend(Moved(c, x[0]), x[1..], d, y, f);
      assert (x + y)[1..] == x[1..] + y;
    }
  }

  lemma LeadsTransitive(c: Conf, d: Conf, f: Conf)
    requires Leads(c, d) && Leads(d, f)
    ensures Leads(c, f)
  {
    hide Path;
    var x :| Path(c, x, d);
    var y :| Path(d, y, f);
    PathAppend(c, x, d, y, f);
  }

  lemma OneMove(c: Conf, m: Move)
    requires Inv(c.w) && Allowed(c, m)
    ensures Leads(c, Moved(c, m)) && Inv(Moved(c, m).w)
  {
    hide Inv, Moved, Next, Path;
    MovedIsNext(c, m);
    PathOfOne(c, m, Moved(c, m));
    NextKeeps(c.w, m);
  }

  lemma PathOfOne(c: Conf, m: Move, d: Conf)
    requires Allowed(c, m) && Moved(c, m) == d
    ensures Path(c, [m], d)
  {
    hide Moved;
    assert Path(d, [], d);
    assert [m][1..] == [];
  }

  lemma MovedIsNext(c: Conf, m: Move)
    requires Allowed(c, m)
    ensures Possible(c.w, m) && Moved(c, m).w == Next(c.w, m)
  {
  }

  lemma Stay(c: Conf)
    ensures Leads(c, c)
  {
    assert Path(c, [], c);
  }

  // ---------- The task

  /** What never changes while the messages accepted by A are brought to B. */
  ghost predicate SameTask(c: Conf, d: Conf) {
    && d.w.sentA == c.w.sentA && d.w.a.cfg == c.w.a.cfg && d.w.b.cfg == c.w.b.cfg && d.w.b.rcv.wnd == c.w.b.rcv.wnd
  }

  /** Both ends are running, A may send at all, and every accepted message fits B's receive window. */
  ghost predicate Ready(c: Conf) {
    && Inv(c.w) && c.w.a.clk.updated && c.w.b.clk.updated
    && c.w.a.cfg.mss > 0 && c.w.b.cfg.mss > 0 && c.w.a.cfg.sndWnd > 0
    && (forall i :: 0 <= i < |c.w.sentA| ==> Count(c.w.a.cfg.mss, |c.w.sentA[i]|) <= c.w.b.rcv.wnd)
  }

  /** `d` can be reached from `c`, the task is the same, and nothing has been read since. */
  ghost predicate Onward(c: Conf, d: Conf) {
    Leads(c, d) && Ready(d) && SameTask(c, d) && d.w.gotB == c.w.gotB
  }

  lemma OnwardTransitive(c: Conf, d: Conf, f: Conf)
    requires Onward(c, d) && Onward(d, f)
    ensures Onward(c, f)
  {
    hide Leads, Ready;
    LeadsTransitive(c, d, f);
  }

  lemma OnwardIsReady(c: Conf, d: Conf)
    requires Onward(c, d)
    ensures Ready(d)
  {
  }

  // ---------- Single moves and their effects

  function PushA(c: Conf): Conf {
    var out := AsSet(FlushSegments(c.w.a));
    Conf(c.w.(a := Flush(c.w.a), fromA := c.w.fromA + out), c.newA + out, c.newB)
  }

  function PushB(c: Conf): Conf {
    var out := AsSet(FlushSegments(c.w.b));
    Conf(c.w.(b := Flush(c.w.b), fromB := c.w.fromB + out), c.newA, c.newB + out)
  }

  function GiveA(c: Conf, p: Segment): Conf
    requires c.w.a.cfg.mss > 0
  {
    c.(w := c.w.(a := TakeIn(c.w.a, [p], ReachesEnd(c.w.a, p))))
  }

  function GiveB(c: Conf, p: Segment): Conf
    requires c.w.b.cfg.mss > 0
  {
    c.(w := c.w.(b := TakeIn(c.w.b, [p], ReachesEnd(c.w.b, p))))
  }

  lemma PushIsAllowed(c: Conf)
    requires Ready(c)
    ensures Onward(c, PushA(c)) && Onward(c, PushB(c))
  {
    hide Inv, FlushSegments, Leads, Allowed;
    PushMoves(c);
    OneMove(c, Move(true, Push));
    OneMove(c, Move(false, Push));
    FlushFrame(c.w.a);
    FlushFrame(c.w.b);
  }

  lemma PushMoves(c: Conf)
    requires c.w.a.cfg.mss > 0 && c.w.b.cfg.mss > 0
    ensures Allowed(c, Move(true, Push)) && Moved(c, Move(true, Push)) == PushA(c)
    ensures Allowed(c, Move(false, Push)) && Moved(c, Move(false, Push)) == PushB(c)
  {
    hide FlushSegments, Flush;
  }

  lemma GiveIsAllowed(c: Conf, p: Segment)
    requires Ready(c)
    ensures p in c.newB && p in c.w.fromB ==> Onward(c, GiveA(c, p))
    ensures p in c.newA && p in c.w.fromA ==> Onward(c, GiveB(c, p))
  {
    hide Inv, TakeIn, ReachesEnd, Leads, Allowed;
    GiveMoves(c, p);
    if p in c.newB && p in c.w.fromB {
      OneMove(c, Arrival(c, true, p));
    }
    if p in c.newA && p in c.w.fromA {
      OneMove(c, Arrival(c, false, p));
    }
    InputFrame(c.w.a, p, ReachesEnd(c.w.a, p));
    InputFrame(c.w.b, p, ReachesEnd(c.w.b, p));
  }

  function Arrival(c: Conf, atA: bool, p: Segment): Move {
    Move(atA, Deliver([p], ReachesEnd(Facing(c.w, atA).a, p)))
  }

  lemma GiveMoves(c: Conf, p: Segment)
    requires c.w.a.cfg.mss > 0 && c.w.b.cfg.mss > 0
    ensures p in c.newB && p in c.w.fromB ==>
              Allowed(c, Arrival(c, true, p)) && Moved(c, Arrival(c, true, p)) == GiveA(c, p)
    ensures p in c.newA && p in c.w.fromA ==>
              Allowed(c, Arrival(c, false, p)) && Moved(c, Arrival(c, false, p)) == GiveB(c, p)
  {
    hide TakeIn, ReachesEnd;
    assert AsSet([]) == {};
    assert c.newA + {} == c.newA && c.newB + {} == c.newB;
  }

  lemma FlushFrame(e: Endpoint)
    ensures var d := Flush(e);
            d.cfg == e.cfg && d.clk == e.clk && d.rcv == e.rcv && d.rmtWnd == e.rmtWnd
            && (e.clk.updated ==> d.cc.cwnd >= 1)
  {
    hide ProbeStep, VisitAll, Admit, AnyDue, Timeouts;
  }

  lemma InputFrame(e: Endpoint, p: Segment, whole: bool)
    requires e.cfg.mss > 0
    ensures var d := TakeIn(e, [p], whole);
            && d.cfg == e.cfg && d.clk == e.clk && d.rmtWnd == p.wnd && d.rcv.wnd == e.rcv.wnd
            && d.snd.nxt == e.snd.nxt && d.snd.queue == e.snd.queue
            && d.rcv == (if p.cmd == CMD_PUSH && p.sn < e.rcv.nxt + e.rcv.wnd
                         then TakeData(e.rcv, OnWire(p)) else e.rcv)
            && d.probe.askTell == (e.probe.askTell || p.cmd == CMD_WASK)
            && (p.cmd == CMD_PUSH && p.sn < e.rcv.nxt + e.rcv.wnd ==> d.acks == e.acks + [Ack(p.sn, p.ts)])
            && (p.cmd != CMD_ACK ==> d.snd == TakeUna(e.snd, p.una))
            && (p.cmd == CMD_ACK ==> var t := TakeAck(TakeUna(e.snd, p.una), p.sn);
                                     d.snd == if whole then TakeFastack(t, p.sn) else t)
  {
    hide TakeData, TakeSample, OnAdvance, KeepFrom, Without, Skipped;
    var s := Scan(e, false, 0);
    assert HandleAll(s, [p]) == HandleAll(Handle(s, p), []);
    TakeDataKeepsWnd(e.rcv, OnWire(p));
  }

  lemma TakeDataKeepsWnd(r: Receiver, g: Segment)
    ensures TakeData(r, g).wnd == r.wnd
  {
    DrainKeepsWindow(r.(buf := Insert(r.buf, g)));
  }

  // ---------- Flushing at a chosen time

  /** A flush of A at time `now`: by the timer if it is due, else by the application. */
  function FlushAtA(c: Conf, now: u32): Conf {
    PushA(c.(w := c.w.(a := Tick(c.w.a, now).0)))
  }

  lemma FlushAtAIsAllowed(c: Conf, now: u32)
    requires Ready(c)
    ensures Onward(c, FlushAtA(c, now))
  {
    hide Inv, Leads, Allowed, Moved, FlushSegments, Flush;
    var m := Move(true, Elapse(now));
    ElapseMoves(c, now);
    OneMove(c, m);
    var d := Moved(c, m);
    FlushFrame(Tick(c.w.a, now).0);
    if !Tick(c.w.a, now).1 {
      assert Ready(d);
      PushIsAllowed(d);
      assert Onward(c, d);
      OnwardTransitive(c, d, PushA(d));
    }
  }

  lemma ElapseMoves(c: Conf, now: u32)
    requires c.w.a.cfg.mss > 0
    ensures var m := Move(true, Elapse(now));
            && Allowed(c, m)
            && Moved(c, m) == if Tick(c.w.a, now).1 then FlushAtA(c, now) else c.(w := c.w.(a := Tick(c.w.a, now).0))
  {
    hide FlushSegments, Flush, Tick;
    assert AsSet([]) == {};
    assert c.newA + {} == c.newA && c.w.fromA + {} == c.w.fromA;
  }

  /** Once its timer has been reached, a segment of the window is handed out again. */
  lemma Retransmits(e: Endpoint, g: Segment)
    requires e.clk.updated && g in e.snd.buf && g.xmit >= 1 && g.cmd == CMD_PUSH && e.clk.current == g.resendts
    ensures exists p :: p in FlushSegments(e) && p.cmd == CMD_PUSH && p.sn == g.sn
  {
    hide ControlSegments;
    var s, p := Admitted(e), PaceOf(e);
    AdmitShape(e.snd, WindowLimit(e), StampOf(e));
    assert g in s.buf;
    TimeDiffIsSignedDistance(p.now, g.resendts, 0);
    assert DueOf(g, p) == Timeout;
    TransmittedMembers(s.buf, p, Visit(g, p));
    assert Visit(g, p) in FlushSegments(e);
  }

  lemma RetransmitAtA(c: Conf, g: Segment)
    requires Ready(c) && g in c.w.a.snd.buf
    ensures var d := FlushAtA(c, g.resendts);
            && Onward(c, d)
            && d.w.b == c.w.b
            && exists p :: p in d.newA && p in d.w.fromA && p.cmd == CMD_PUSH && p.sn == g.sn
  {
    hide Onward, FlushSegments, Flush;
    var e := Tick(c.w.a, g.resendts).0;
    FlushAtAIsAllowed(c, g.resendts);
    WindowIsSent(c, g);
    Retransmits(e, g);
    var p :| p in FlushSegments(e) && p.cmd == CMD_PUSH && p.sn == g.sn;
    assert p in AsSet(FlushSegments(e));
  }

  lemma WindowIsSent(c: Conf, g: Segment)
    requires Ready(c) && g in c.w.a.snd.buf
    ensures g.xmit >= 1 && g.cmd == CMD_PUSH && g.sn < c.w.a.snd.nxt
  {
    assert Genuine(g, c.w.a.snd.nxt, Stream(c.w.a.cfg.mss, c.w.sentA));
  }

  // ---------- The next number reaches the receiver

  lemma NextIsMissing(r: Receiver)
    requires RcvOk(r) && |r.queue| < r.wnd
    ensures !Received(r, r.nxt)
  {
    if HasSn(r.buf, r.nxt) {
      Confluence.FrontIsNext(r);
    }
  }

  lemma ArrivalOfNext(r: Receiver, g: Segment)
    requires RcvOk(r) && |r.queue| < r.wnd && g.sn == r.nxt
    ensures TakeData(r, g).nxt > r.nxt
  {
    var r' := TakeData(r, g);
    TakeDataKeepsReceiver(r, g);
    TakeDataReceives(r, g, g.sn);
    if r'.nxt == r.nxt {
      Confluence.FrontIsNext(r');
    }
  }

  /** If B's queue has room and A has given out the number B waits for, that segment can be brought over. */
  lemma BringNext(c: Conf) returns (d: Conf)
    requires Ready(c) && |c.w.b.rcv.queue| < c.w.b.rcv.wnd && c.w.b.rcv.nxt < c.w.a.snd.nxt
    ensures Onward(c, d) && d.w.b.rcv.nxt > c.w.b.rcv.nxt
  {
    hide Onward, TakeIn, TakeData, FlushAtA;
    var r := c.w.b.rcv;
    ReceiverIsOk(c);
    NextIsMissing(r);
    StillInWindow(c, r.nxt);
    var g :| g in c.w.a.snd.buf && g.sn == r.nxt;
    RetransmitAtA(c, g);
    var f := FlushAtA(c, g.resendts);
    var p :| p in f.newA && p in f.w.fromA && p.cmd == CMD_PUSH && p.sn == g.sn;
    OnwardIsReady(c, f);
    GiveIsAllowed(f, p);
    InputFrame(f.w.b, p, ReachesEnd(f.w.b, p));
    ArrivalOfNext(r, OnWire(p));
    d := GiveB(f, p);
    OnwardTransitive(c, f, d);
  }

  lemma ReceiverIsOk(c: Conf)
    requires Ready(c)
    ensures RcvOk(c.w.b.rcv) && SndOk(c.w.a.snd) && c.w.b.rcv.nxt <= c.w.a.snd.nxt
  {
  }

  lemma StillInWindow(c: Conf, n: nat)
    requires Ready(c) && n < c.w.a.snd.nxt && !Received(c.w.b.rcv, n)
    ensures HasSn(c.w.a.snd.buf, n)
  {
    assert NothingLost(c.w.a.snd, c.w.b.rcv);
  }

  // ---------- The sender learns that everything has arrived and that there is room

  /** A knows that everything it sent has arrived, and that B has room. */
  ghost predicate Informed(c: Conf) {
    c.w.a.snd.buf == [] && c.w.a.snd.una == c.w.a.snd.nxt && c.w.a.rmtWnd > 0
  }

  lemma AllAcknowledged(s: Sender, una: nat, sn: nat)
    requires SndOk(s) && una >= s.nxt
    ensures var t := TakeUna(s, una); t.buf == [] && t.una == s.nxt
    ensures var t := TakeAck(TakeUna(s, una), sn);
            t.buf == [] && t.una == s.nxt && TakeFastack(t, sn).buf == [] && TakeFastack(t, sn).una == s.nxt
  {
    UnaIsAcknowledged(s, una);
    var t := TakeUna(s, una);
    if t.buf != [] {
      FrontIsMember(t.buf);
    }
  }

  lemma FrontIsMember(buf: seq<Segment>)
    requires buf != []
    ensures buf[0] in buf
  {
  }

  lemma FlushAtAMonotone(c: Conf, now: u32)
    requires SndOk(c.w.a.snd)
    ensures var s := FlushAtA(c, now).w.a.snd;
            s.nxt >= c.w.a.snd.nxt && (s.nxt == c.w.a.snd.nxt ==> s.queue == c.w.a.snd.queue)
    ensures FlushAtA(c, now).w.b == c.w.b
  {
    FlushMonotone(Tick(c.w.a, now).0);
  }

  /** Any segment that B hands out now tells A everything. */
  lemma Inform(c: Conf, q: Segment) returns (d: Conf)
    requires Ready(c) && c.w.b.rcv.nxt == c.w.a.snd.nxt
    requires q in c.newB && q in c.w.fromB && q.una == c.w.b.rcv.nxt && q.wnd > 0
    ensures Onward(c, d) && Informed(d) && d.w.b == c.w.b
    ensures d.w.a.snd.nxt == c.w.a.snd.nxt && d.w.a.snd.queue == c.w.a.snd.queue
  {
    hide Onward, TakeIn, ReachesEnd, TakeUna, TakeAck, TakeFastack;
    ReceiverIsOk(c);
    GiveIsAllowed(c, q);
    InputFrame(c.w.a, q, ReachesEnd(c.w.a, q));
    AllAcknowledged(c.w.a.snd, q.una, q.sn);
    d := GiveA(c, q);
  }

  /** B answers: a flush that owes something to A hands out a segment with B's state. */
  lemma Answers(e: Endpoint)
    requires e.clk.updated && (e.acks != [] || e.probe.askTell) && |e.rcv.queue| < e.rcv.wnd
    ensures exists q :: q in FlushSegments(e) && q.una == e.rcv.nxt && q.wnd > 0
  {
    hide DataSegments;
    var t := Template(e);
    var acks := AckSegments(t, e.acks);
    if e.acks != [] {
      assert acks[0] in ControlSegments(e);
      assert acks[0] in FlushSegments(e);
    } else {
      var q := AfterAcks(t, e.acks).(cmd := CMD_WINS);
      assert q in ControlSegments(e);
      assert q in FlushSegments(e);
    }
  }

  lemma AnswerInforms(c: Conf) returns (d: Conf)
    requires Ready(c) && c.w.b.rcv.nxt == c.w.a.snd.nxt && |c.w.b.rcv.queue| < c.w.b.rcv.wnd
    requires c.w.b.acks != [] || c.w.b.probe.askTell
    ensures Onward(c, d) && Informed(d) && d.w.b.rcv == c.w.b.rcv
    ensures d.w.a.snd.nxt == c.w.a.snd.nxt && d.w.a.snd.queue == c.w.a.snd.queue
  {
    hide Onward, FlushSegments, Flush;
    Answers(c.w.b);
    var q :| q in FlushSegments(c.w.b) && q.una == c.w.b.rcv.nxt && q.wnd > 0;
    PushIsAllowed(c);
    FlushFrame(c.w.b);
    var f := PushB(c);
    assert q in AsSet(FlushSegments(c.w.b));
    OnwardIsReady(c, f);
    d := Inform(f, q);
    OnwardTransitive(c, f, d);
  }

  /** An outstanding segment is repeated, and B acknowledges it; unless A has given out a number meanwhile. */
  lemma InformByRepeating(c: Conf) returns (d: Conf)
    requires Ready(c) && c.w.b.rcv.nxt == c.w.a.snd.nxt && |c.w.b.rcv.queue| < c.w.b.rcv.wnd
    requires c.w.a.snd.buf != []
    ensures Onward(c, d) && d.w.b.rcv == c.w.b.rcv
    ensures || d.w.a.snd.nxt > c.w.a.snd.nxt
            || (Informed(d) && d.w.a.snd.queue == c.w.a.snd.queue && d.w.a.snd.nxt == c.w.a.snd.nxt)
  {
    hide Ready, Onward, Informed, FlushAtA;
    ReceiverIsOk(c);
    var g := c.w.a.snd.buf[0];
    WindowIsSent(c, g);
    RetransmitAtA(c, g);
    var f := FlushAtA(c, g.resendts);
    var p :| p in f.newA && p in f.w.fromA && p.cmd == CMD_PUSH && p.sn == g.sn;
    OnwardIsReady(c, f);
    FlushAtAMonotone(c, g.resendts);
    if f.w.a.snd.nxt > c.w.a.snd.nxt {
      d := f;
    } else {
      d := InformByArrival(f, p);
      OnwardTransitive(c, f, d);
    }
  }

  /** A repeated segment arrives at B, which acknowledges it. */
  lemma InformByArrival(c: Conf, p: Segment) returns (d: Conf)
    requires Ready(c) && c.w.b.rcv.nxt == c.w.a.snd.nxt && |c.w.b.rcv.queue| < c.w.b.rcv.wnd
    requires p in c.newA && p in c.w.fromA && p.cmd == CMD_PUSH && p.sn < c.w.b.rcv.nxt
    ensures Onward(c, d) && d.w.b.rcv == c.w.b.rcv && Informed(d)
    ensures d.w.a.snd.nxt == c.w.a.snd.nxt && d.w.a.snd.queue == c.w.a.snd.queue
  {
    hide Ready, Onward, TakeIn, ReachesEnd, Informed;
    ReadyParts(c);
    GiveIsAllowed(c, p);
    InputFrame(c.w.b, p, ReachesEnd(c.w.b, p));
    var h := GiveB(c, p);
    OnwardIsReady(c, h);
    d := AnswerInforms(h);
    OnwardTransitive(c, h, d);
  }

  lemma ReadyParts(c: Conf)
    requires Ready(c)
    ensures c.w.a.cfg.mss > 0 && c.w.b.cfg.mss > 0
  {
  }

  /** A flush gives out numbers only from the queue. */
  lemma FlushMonotone(e: Endpoint)
    requires SndOk(e.snd)
    ensures var s := Flush(e).snd;
            && s.nxt >= e.snd.nxt && s.una == e.snd.una
            && (s.nxt == e.snd.nxt ==> s.queue == e.snd.queue && |s.buf| == |e.snd.buf|)
  {
    hide ProbeStep, OnFlush, Visit;
    AdmitKeepsSender(e.snd, WindowLimit(e), StampOf(e));
    AdmitShape(e.snd, WindowLimit(e), StampOf(e));
    ControlKeepsWindow(e);
    if e.clk.updated && Admitted(e).nxt == e.snd.nxt {
      assert Admitted(e).queue == e.snd.queue[0..] == e.snd.queue;
    }
  }

  /** With a zero peer window nothing is given out; a running probe timer asks when it is reached. */
  lemma ZeroWindowFlush(e: Endpoint)
    requires e.clk.updated && e.rmtWnd == 0 && SndOk(e.snd) && e.snd.una == e.snd.nxt
    ensures Flush(e).snd.nxt == e.snd.nxt && Flush(e).probe.wait != 0
    ensures e.probe.wait != 0 && e.clk.current == e.probe.ts ==>
              exists q :: q in FlushSegments(e) && q.cmd == CMD_WASK
  {
    hide OnFlush, DataSegments, VisitAll;
    ControlKeepsWindow(e);
    if e.probe.wait != 0 && e.clk.current == e.probe.ts {
      TimeDiffIsSignedDistance(e.clk.current, e.probe.ts, 0);
      var q := AfterAcks(Template(e), e.acks).(cmd := CMD_WASK);
      assert q in ControlSegments(e);
      assert q in FlushSegments(e);
    }
  }

  /** With nothing outstanding and a zero peer window, a probe brings B's window to A. */
  lemma InformByProbing(c: Conf) returns (d: Conf)
    requires Ready(c) && c.w.b.rcv.nxt == c.w.a.snd.nxt && |c.w.b.rcv.queue| < c.w.b.rcv.wnd
    requires c.w.a.snd.buf == [] && c.w.a.rmtWnd == 0 && c.w.a.probe.wait != 0
    ensures Onward(c, d) && d.w.b.rcv == c.w.b.rcv
    ensures Informed(d) && d.w.a.snd.queue == c.w.a.snd.queue && d.w.a.snd.nxt == c.w.a.snd.nxt
  {
    hide Onward, TakeIn, ReachesEnd, Informed, FlushSegments, Flush;
    ReceiverIsOk(c);
    var now := c.w.a.probe.ts;
    var e := Tick(c.w.a, now).0;
    FlushAtAIsAllowed(c, now);
    FlushMonotone(e);
    ZeroWindowFlush(e);
    var q :| q in FlushSegments(e) && q.cmd == CMD_WASK;
    var f := FlushAtA(c, now);
    assert q in AsSet(FlushSegments(e));
    OnwardIsReady(c, f);
    GiveIsAllowed(f, q);
    InputFrame(f.w.b, q, ReachesEnd(f.w.b, q));
    var h := GiveB(f, q);
    OnwardIsReady(f, h);
    OnwardTransitive(c, f, h);
    d := AnswerInforms(h);
    OnwardTransitive(c, h, d);
  }

  /** One way or another A can be informed, or gives out a number on the way. */
  lemma BringNews(c: Conf) returns (d: Conf)
    requires Ready(c) && c.w.b.rcv.nxt == c.w.a.snd.nxt && |c.w.b.rcv.queue| < c.w.b.rcv.wnd
    ensures Onward(c, d) && d.w.b.rcv == c.w.b.rcv
    ensures || d.w.a.snd.nxt > c.w.a.snd.nxt
            || (Informed(d) && d.w.a.snd.queue == c.w.a.snd.queue && d.w.a.snd.nxt == c.w.a.snd.nxt)
  {
    hide Inv, Leads;
    ReceiverIsOk(c);
    if c.w.a.snd.buf != [] {
      d := InformByRepeating(c);
    } else if c.w.a.rmtWnd > 0 {
      Stay(c);
      d := c;
    } else if c.w.a.probe.wait != 0 {
      d := InformByProbing(c);
    } else {
      PushIsAllowed(c);
      FlushFrame(c.w.a);
      FlushMonotone(c.w.a);
      ZeroWindowFlush(c.w.a);
      var f := PushA(c);
      d := InformByProbing(f);
      OnwardTransitive(c, f, d);
    }
  }

  // ---------- The sender gives out the next number

  lemma OpenWindowAdmits(e: Endpoint)
    requires e.clk.updated && SndOk(e.snd) && e.snd.una == e.snd.nxt && e.snd.queue != []
    requires e.cfg.sndWnd > 0 && e.rmtWnd > 0 && (e.cfg.nocwnd || e.cc.cwnd > 0)
    ensures Flush(e).snd.nxt > e.snd.nxt
  {
    hide SndOk, Admit, ProbeStep, OnFlush, VisitAll;
    ControlKeepsWindow(e);
    AdmitsOne(e.snd, WindowLimit(e), StampOf(e));
  }

  lemma AdmitsOne(s: Sender, limit: nat, t: Stamp)
    requires SndOk(s) && s.una == s.nxt && s.queue != [] && limit > 0
    ensures Admit(s, limit, t).nxt > s.nxt
  {
    hide SndOk;
    AdmitOne(s, t);
    AdmitKeepsSender(AdmitStep(s, t), limit, t);
  }

  /** An informed sender with something queued gives out the next number within two flushes: the first one makes
      sure that the congestion window is open. */
  lemma GiveOut(c: Conf) returns (d: Conf)
    requires Ready(c) && Informed(c) && c.w.a.snd.queue != []
    ensures Onward(c, d) && d.w.b == c.w.b && d.w.a.snd.nxt > c.w.a.snd.nxt
  {
    hide Onward, Flush, FlushSegments;
    ReceiverIsOk(c);
    PushIsAllowed(c);
    FlushFrame(c.w.a);
    FlushMonotone(c.w.a);
    var f := PushA(c);
    OnwardIsReady(c, f);
    if f.w.a.snd.nxt > c.w.a.snd.nxt {
      d := f;
    } else {
      ReceiverIsOk(f);
      PushIsAllowed(f);
      OpenWindowAdmits(f.w.a);
      d := PushA(f);
      OnwardTransitive(c, f, d);
    }
  }

  // ---------- All messages

  /** What B has not been given yet: either its front message is complete, or the next fragment is missing, the
      queue has room for it, and if it has no number yet it waits in A's queue. */
  lemma WhatIsMissing(c: Conf)
    requires Ready(c) && c.w.gotB != c.w.sentA
    ensures |c.w.gotB| < |c.w.sentA|
    ensures PeekSize(Pieces(c.w.b.rcv.queue)).None? ==>
              && |c.w.b.rcv.queue| < c.w.b.rcv.wnd
              && c.w.b.rcv.nxt < |Stream(c.w.a.cfg.mss, c.w.sentA)|
              && (c.w.b.rcv.nxt == c.w.a.snd.nxt ==> c.w.a.snd.queue != [])
  {
    hide Span, Join, PeekSize, SndOk, RcvOk;
    var l := FromA(c.w);
    var all, k := Stream(l.mss, l.sent), |l.got|;
    FrontMessage(l);
    assert l.sent[..k] == l.got;
    assert k < |l.sent|;
    Remaining(l.mss, l.sent, k);
    FragmentShape(l.mss, l.sent[k], 0);
    assert |Pieces(l.r.queue)| == |l.r.queue| && |Pieces(l.s.queue)| == |l.s.queue|;
  }

  /** The next fragment can be brought to B. */
  lemma BringFragment(c: Conf) returns (d: Conf)
    requires Ready(c) && c.w.gotB != c.w.sentA && PeekSize(Pieces(c.w.b.rcv.queue)).None?
    ensures Onward(c, d) && d.w.b.rcv.nxt > c.w.b.rcv.nxt
  {
    hide Ready, Onward, Informed, PeekSize;
    WhatIsMissing(c);
    ReceiverIsOk(c);
    if c.w.b.rcv.nxt < c.w.a.snd.nxt {
      d := BringNext(c);
    } else {
      var f := BringNews(c);
      OnwardIsReady(c, f);
      if f.w.a.snd.nxt == c.w.a.snd.nxt {
        var h := GiveOut(f);
        OnwardTransitive(c, f, h);
        f := h;
        OnwardIsReady(c, f);
      }
      OnwardKeepsWindow(c, f);
      d := BringNext(f);
      OnwardTransitive(c, f, d);
    }
  }

  lemma OnwardKeepsWindow(c: Conf, d: Conf)
    requires Onward(c, d)
    ensures SameTask(c, d) && d.w.gotB == c.w.gotB && Leads(c, d)
  {
  }

  /** A complete front message can be read. */
  lemma ReadNext(c: Conf) returns (d: Conf)
    requires Ready(c) && c.w.gotB != c.w.sentA && PeekSize(Pieces(c.w.b.rcv.queue)).Some?
    ensures Leads(c, d) && Ready(d) && SameTask(c, d) && |d.w.gotB| == |c.w.gotB| + 1
  {
    hide Inv, Allowed, Moved, Leads, PeekSize, Span, Join, Drain;
    var size := PeekSize(Pieces(c.w.b.rcv.queue)).value;
    var m := Move(false, Read(size));
    d := c.(w := c.w.(b := Recv(c.w.b, size).0, gotB := c.w.gotB + [NextMessage(c.w.b.rcv.queue)]));
    ReadMoves(c, size);
    OneMove(c, m);
    TakeKeepsWnd(c.w.b.rcv, Span(Pieces(c.w.b.rcv.queue)));
  }

  lemma TakeKeepsWnd(r: Receiver, n: nat)
    requires n <= |r.queue|
    ensures Take(r, n).wnd == r.wnd
  {
    DrainKeepsWindow(r.(queue := r.queue[n..]));
  }

  lemma ReadMoves(c: Conf, size: nat)
    requires c.w.b.cfg.mss > 0 && PeekSize(Pieces(c.w.b.rcv.queue)) == Some(size)
    ensures var m := Move(false, Read(size));
            && Allowed(c, m)
            && Moved(c, m) == c.(w := c.w.(b := Recv(c.w.b, size).0, gotB := c.w.gotB + [NextMessage(c.w.b.rcv.queue)]))
  {
    hide PeekSize, Span, Join, Drain;
    assert AsSet([]) == {};
    assert c.newB + {} == c.newB;
    PeekOfEmpty(c.w.b.rcv.queue);
  }

  lemma PeekOfEmpty(q: seq<Segment>)
    ensures q == [] ==> PeekSize(Pieces(q)).None?
  {
  }

  lemma {:induction false} AllCanArrive(c: Conf) returns (d: Conf)
    requires Ready(c)
    ensures Leads(c, d) && Inv(d.w) && SameTask(c, d) && d.w.gotB == c.w.sentA
    decreases |c.w.sentA| - |c.w.gotB|, |Stream(c.w.a.cfg.mss, c.w.sentA)| - c.w.b.rcv.nxt
  {
    hide Inv, Leads, PeekSize;
    GotAtMostSent(c);
    if c.w.gotB == c.w.sentA {
      Stay(c);
      d := c;
    } else if PeekSize(Pieces(c.w.b.rcv.queue)).Some? {
      var f := ReadNext(c);
      d := AllCanArrive(f);
      LeadsTransitive(c, f, d);
    } else {
      WhatIsMissing(c);
      var f := BringFragment(c);
      d := AllCanArrive(f);
      LeadsTransitive(c, f, d);
    }
  }

  lemma GotAtMostSent(c: Conf)
    requires Ready(c)
    ensures |c.w.gotB| <= |c.w.sentA|
  {
  }

  // ---------- Waking up, and the theorem

  lemma WakeA(c: Conf) returns (d: Conf)
    requires Inv(c.w)
    ensures Leads(c, d) && Inv(d.w) && d.w.a.clk.updated
    ensures d.w == d.w.(b := c.w.b) && d.w.sentA == c.w.sentA && d.w.a.cfg == c.w.a.cfg && d.w.gotB == c.w.gotB
  {
    hide Inv, Leads, Allowed, Moved, Flush, FlushSegments;
    InvParts(c.w);
    var m := Move(true, Elapse(0));
    ElapseMoves(c, 0);
    OneMove(c, m);
    FlushFrame(Tick(c.w.a, 0).0);
    d := Moved(c, m);
  }

  function FlipConf(c: Conf): Conf {
    Conf(Flip(c.w), c.newB, c.newA)
  }

  lemma {:induction false} FlipPath(c: Conf, moves: seq<Move>, d: Conf)
    requires Path(c, moves, d)
    ensures Leads(FlipConf(c), FlipConf(d))
    decreases |moves|
  {
    hide Moved;
    if moves == [] {
      Stay(FlipConf(c));
    } else {
      FlipPath(Moved(c, moves[0]), moves[1..], d);
      FlipMove(c, moves[0]);
      var m := moves[0].(atA := !moves[0].atA);
      PathOfOne(FlipConf(c), m, FlipConf(Moved(c, moves[0])));
      LeadsTransitive(FlipConf(c), FlipConf(Moved(c, moves[0])), FlipConf(d));
    }
  }

  lemma FlipMove(c: Conf, m: Move)
    requires Allowed(c, m)
    ensures var n := m.(atA := !m.atA);
            Allowed(FlipConf(c), n) && Moved(FlipConf(c), n) == FlipConf(Moved(c, m))
  {
    hide StepA, Update, FlushSegments;
  }

  lemma WakeB(c: Conf) returns (d: Conf)
    requires Inv(c.w)
    ensures Leads(c, d) && Inv(d.w) && d.w.b.clk.updated
    ensures d.w == d.w.(a := c.w.a) && d.w.sentA == c.w.sentA
    ensures d.w.b.cfg == c.w.b.cfg && d.w.b.rcv.wnd == c.w.b.rcv.wnd
    ensures d.w.gotB == c.w.gotB
  {
    hide Inv, Leads, Allowed, Moved, Flush, FlushSegments;
    InvParts(c.w);
    var m := Move(false, Elapse(0));
    var f := FlipConf(c);
    FlipKeepsInv(c.w);
    ElapseMoves(f, 0);
    FlipMove(f, Move(true, Elapse(0)));
    assert FlipConf(f) == c;
    OneMove(c, m);
    FlushFrame(Tick(c.w.b, 0).0);
    d := Moved(c, m);
  }

  // ---------- Only messages that fit the receive window can arrive

  /** Every message fits the peer's receive window. */
  ghost predicate AllFit(w: World, msgs: seq<seq<byte>>)
    requires w.a.cfg.mss > 0
  {
    forall i :: 0 <= i < |msgs| ==> Count(w.a.cfg.mss, |msgs[i]|) <= w.b.rcv.wnd
  }

  lemma {:induction false} HandleAllKeepsWnd(s: Scan, segs: seq<Segment>)
    ensures HandleAll(s, segs).e.rcv.wnd == s.e.rcv.wnd
    decreases |segs|
  {
    hide TakeData, TakeSample, TakeUna, TakeAck;
    if segs != [] {
      TakeDataKeepsWnd(s.e.rcv, OnWire(segs[0]));
      HandleAllKeepsWnd(Handle(s, segs[0]), segs[1..]);
    }
  }

  /** A step changes neither settings nor window sizes, and only reading returns messages. */
  lemma StepFrame(w: World, event: Event)
    requires PossibleA(w, event)
    ensures var v := StepA(w, event);
            && v.a.cfg == w.a.cfg && v.a.rcv.wnd == w.a.rcv.wnd && v.b == w.b && v.gotB == w.gotB
            && (v.gotA == w.gotA || (event.Read? && Recv(w.a, event.capacity).1.Ok?
                                     && v.gotA == w.gotA + [Recv(w.a, event.capacity).1.value]))
  {
    hide HandleAll, Flush, FlushSegments, Drain, Span, Join, PeekSize, OnAdvance, TakeFastack, Advance;
    match event
    case Write(msg) =>
    case Read(capacity) =>
      DrainKeepsWindow(w.a.rcv.(queue := w.a.rcv.queue[Span(Pieces(w.a.rcv.queue))..]));
    case Deliver(segs, whole) => HandleAllKeepsWnd(Scan(w.a, false, 0), segs);
    case Elapse(now) => FlushFrame(Tick(w.a, now).0);
    case Push => FlushFrame(w.a);
  }

  /** A message that is read fits. */
  lemma ReadFits(w: World, capacity: nat)
    requires Inv(w) && Recv(w.b, capacity).1.Ok?
    ensures w.a.cfg.mss > 0 && Count(w.a.cfg.mss, |Recv(w.b, capacity).1.value|) <= w.b.rcv.wnd
  {
    hide Valid, Good, Take, Span, Join, PeekSize;
    InvParts(w);
    FrontMessage(FromA(w));
    QueueFits(w);
    assert |Pieces(w.b.rcv.queue)| == |w.b.rcv.queue|;
  }

  lemma QueueFits(w: World)
    requires Inv(w)
    ensures |w.b.rcv.queue| <= w.b.rcv.wnd
  {
  }

  lemma NextFits(w: World, m: Move)
    requires Inv(w) && Possible(w, m) && w.a.cfg.mss > 0 && AllFit(w, w.gotB)
    ensures var v := Next(w, m);
            v.a.cfg == w.a.cfg && v.b.rcv.wnd == w.b.rcv.wnd && AllFit(v, v.gotB)
  {
    hide Inv, StepA, Recv;
    StepFrame(Facing(w, m.atA), m.event);
    if !m.atA && Next(w, m).gotB != w.gotB {
      ReadFits(w, m.event.capacity);
    }
  }

  lemma {:induction false} RunFits(w: World, moves: seq<Move>)
    requires Inv(w) && w.a.cfg.mss > 0 && AllFit(w, w.gotB) && IsRun(w, moves)
    ensures var v := After(w, moves); v.a.cfg == w.a.cfg && v.b.rcv.wnd == w.b.rcv.wnd && AllFit(v, v.gotB)
    decreases |moves|
  {
    hide Inv, Next;
    if moves != [] {
      NextKeeps(w, moves[0]);
      NextFits(w, moves[0]);
      RunFits(Next(w, moves[0]), moves[1..]);
    }
  }

  lemma {:induction false} FlipRun(w: World, moves: seq<Move>) returns (flipped: seq<Move>)
    requires IsRun(w, moves)
    ensures IsRun(Flip(w), flipped) && After(Flip(w), flipped) == Flip(After(w, moves))
    decreases |moves|
  {
    hide StepA;
    if moves == [] {
      flipped := [];
    } else {
      var m := moves[0].(atA := !moves[0].atA);
      assert Flip(Flip(w)) == w && Possible(Flip(w), m) && Next(Flip(w), m) == Flip(Next(w, moves[0]));
      var rest := FlipRun(Next(w, moves[0]), moves[1..]);
      flipped := [m] + rest;
      assert flipped[1..] == rest;
    }
  }

  lemma InitialFits(w: World)
    requires Initial(w)
    ensures Inv(w) && w.a.cfg.mss > 0 && AllFit(w, w.gotB) && Initial(Flip(w))
  {
    hide Good;
    InitialIsInv(w);
  }

  /** What has been read so far fits, at both ends of every reachable state. */
  lemma SeenFits(w: World, moves: seq<Move>, atA: bool)
    requires Initial(w) && IsRun(w, moves)
    ensures var v := Seen(w, moves, atA); v.a.cfg.mss > 0 && AllFit(v, v.gotB)
  {
    hide Inv, Initial;
    InitialFits(w);
    if atA {
      RunFits(w, moves);
    } else {
      var flipped := FlipRun(w, moves);
      InitialFits(Flip(w));
      RunFits(Flip(w), flipped);
    }
  }

  // ---------- The theorem

  lemma CanRecover(v: World)
    requires Inv(v) && v.a.cfg.mss > 0 && v.a.cfg.sndWnd > 0 && AllFit(v, v.sentA)
    ensures exists d :: Leads(Conf(v, {}, {}), d) && d.w.sentA == d.w.gotB == v.sentA
  {
    hide Inv, Leads;
    InvParts(v);
    var c := Conf(v, {}, {});
    var c1 := WakeA(c);
    var c2 := WakeB(c1);
    LeadsTransitive(c, c1, c2);
    var d := AllCanArrive(c2);
    LeadsTransitive(c, c2, d);
  }

  /** Recovery: in every reachable state, even if everything on its way is lost, the endpoints can go on so that
      the receiving application is given exactly the messages accepted, provided that each of these messages has at
      most as many fragments as the receive window (and the sender has a send window at all). Otherwise no
      continuation whatsoever does so, even if nothing is lost. */
  lemma Recovery(w: World, moves: seq<Move>, atA: bool)
    requires Initial(w) && IsRun(w, moves) && Seen(w, moves, atA).a.cfg.sndWnd > 0
    ensures var v := Seen(w, moves, atA);
            v.a.cfg.mss > 0 &&
            (AllFit(v, v.sentA) ==> exists d :: Leads(Conf(v, {}, {}), d) && d.w.sentA == d.w.gotB == v.sentA)
    ensures var v := Seen(w, moves, atA);
            !AllFit(v, v.sentA) ==> forall more :: IsRun(v, more) ==> After(v, more).gotB != v.sentA
  {
    hide Initial, IsRun, Inv, Path;
    var v := Seen(w, moves, atA);
    SeenIsInv(w, moves, atA);
    SeenFits(w, moves, atA);
    if AllFit(v, v.sentA) {
      CanRecover(v);
    }
    forall more | IsRun(v, more) && After(v, more).gotB == v.sentA ensures AllFit(v, v.sentA) {
      RunFits(v, more);
    }
  }
}
