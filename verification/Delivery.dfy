/** The bytes of a run: what reachable endpoints write to the network, and what arrives when datagrams are made of
    it. This ties the segment-level model of the network to the byte-level `input` and `flush`. */
module Delivery {
  import opened Machine
  import opened Wire
  import opened Message
  import opened SendWindow
  import opened ReceiveWindow
  import opened RttEstimator
  import opened CongestionWindow
  import opened Retransmission
  import opened Protocol
  import opened Packing
  import opened Link
  import opened Network

  // ---------- Everything handed to the network can be parsed

  ghost predicate WindowLabelled(e: Endpoint) {
    forall g :: g in e.snd.buf ==> g.conv == e.cfg.conv
  }

  /** A segment of endpoint `e` as it appears on the network. */
  predicate Clean(p: Segment, e: Endpoint) {
    && p.conv == e.cfg.conv && KnownCommand(p.cmd) && p.wnd <= e.rcv.wnd
    && (p.cmd != CMD_PUSH ==> p.data == [])
  }

  ghost predicate AllClean(w: World) {
    && Inv(w) && WindowLabelled(w.a) && WindowLabelled(w.b) && w.a.cfg.conv == w.b.cfg.conv
    && (forall p :: p in w.fromA ==> Clean(p, w.a))
    && (forall p :: p in w.fromB ==> Clean(p, w.b))
  }

  lemma AckKeepsLabels(e: Endpoint, g: Segment)
    requires SndOk(e.snd) && WindowLabelled(e)
    ensures WindowLabelled(TakeHeader(e, g)) && WindowLabelled(TakeAckCommand(e, g))
  {
    hide TakeUna, TakeAck, TakeSample, SndOk;
    UnaIsAcknowledged(e.snd, g.una);
    AckRemovesOne(e.snd, g.sn);
  }

  lemma HandleKeepsConfig(s: Scan, g: Segment)
    ensures Handle(s, g).e.cfg == s.e.cfg
  {
  }

  lemma HandleKeepsLabels(s: Scan, g: Segment)
    requires Valid(s.e) && WindowLabelled(s.e)
    ensures var e' := Handle(s, g).e;
            WindowLabelled(e') && e'.rcv.wnd == s.e.rcv.wnd
  {
    hide Valid, TakeData, TakeUna, TakeAck, TakeSample, SndOk, RcvOk;
    var e := TakeHeader(s.e, g);
    ValidParts(s.e);
    AckKeepsLabels(s.e, g);
    AcksKeepValid(s.e, g);
    ValidParts(e);
    AckKeepsLabels(e, g);
    TakeDataKeepsReceiver(s.e.rcv, OnWire(g));
  }

  lemma {:induction false} HandleAllKeepsLabels(s: Scan, segs: seq<Segment>)
    requires Valid(s.e) && WindowLabelled(s.e)
    ensures var e' := HandleAll(s, segs).e;
            WindowLabelled(e') && e'.cfg == s.e.cfg && e'.rcv.wnd == s.e.rcv.wnd
    decreases |segs|
  {
    hide Valid, Handle, WindowLabelled;
    if segs != [] {
      HandleKeepsLabels(s, segs[0]);
      HandleKeepsConfig(s, segs[0]);
      HandleKeepsValid(s, segs[0]);
      HandleAllKeepsLabels(Handle(s, segs[0]), segs[1..]);
    }
  }

  lemma DeliverKeepsLabels(e: Endpoint, segs: seq<Segment>, whole: bool)
    requires Valid(e) && WindowLabelled(e)
    ensures e.cfg.mss > 0
    ensures var e' := TakeIn(e, segs, whole);
            WindowLabelled(e') && e'.cfg == e.cfg && e'.rcv.wnd == e.rcv.wnd
  {
    hide Valid, HandleAll, OnAdvance;
    var s := HandleAll(Scan(e, false, 0), segs);
    HandleAllKeepsLabels(Scan(e, false, 0), segs);
    HandleAllKeepsValid(Scan(e, false, 0), segs);
    ValidParts(s.e);
    if s.acked {
      FastackKeepsSender(s.e.snd, s.maxAck);
      var t := TakeFastack(s.e.snd, s.maxAck);
      forall g | g in t.buf ensures g.conv == e.cfg.conv {
        var i :| 0 <= i < |t.buf| && t.buf[i] == g;
        assert s.e.snd.buf[i] in s.e.snd.buf;
      }
    }
  }

  lemma AdmittedIsLabelled(e: Endpoint, g: Segment)
    requires WindowLabelled(e) && g in Admitted(e).buf
    ensures g.conv == e.cfg.conv
  {
    AdmitShape(e.snd, WindowLimit(e), StampOf(e));
  }

  lemma FlushKeepsLabels(e: Endpoint)
    requires WindowLabelled(e)
    ensures WindowLabelled(Flush(e)) && Flush(e).cfg == e.cfg && Flush(e).rcv == e.rcv
  {
    hide Visit, Admit, OnFlush;
    var s, p, e' := Admitted(e), PaceOf(e), Flush(e);
    ControlKeepsWindow(e);
    if e.clk.updated {
      forall g | g in e'.snd.buf ensures g.conv == e.cfg.conv {
        var i :| 0 <= i < |e'.snd.buf| && e'.snd.buf[i] == g;
        VisitKeepsShape(s.buf, p, i);
        AdmittedIsLabelled(e, s.buf[i]);
      }
    }
  }

  lemma FlushedIsClean(e: Endpoint, all: seq<Piece>, x: Segment)
    requires Source(e.snd, all) && WindowLabelled(e) && x in FlushSegments(e)
    ensures Clean(x, e)
  {
    if x in ControlSegments(e) {
      ControlSegmentsMeaning(e, x);
    } else {
      var b, p := Admitted(e).buf, PaceOf(e);
      DataSegmentsMeaning(e, all, x);
      TransmittedMembers(b, p, x);
      var g :| g in b && DueOf(g, p) != NotDue && Visit(g, p) == x;
      AdmittedIsLabelled(e, g);
    }
  }

  lemma FlushStepIsClean(w: World, e: Endpoint)
    requires AllClean(w.(a := e))
    ensures WindowLabelled(Flush(e)) && Flush(e).cfg == e.cfg && Flush(e).rcv == e.rcv
    ensures forall p :: p in FlushSegments(e) ==> Clean(p, e)
  {
    FlushKeepsLabels(e);
    forall p | p in FlushSegments(e) ensures Clean(p, e) {
      FlushedIsClean(e, Stream(e.cfg.mss, w.sentA), p);
    }
  }

  lemma StepKeepsClean(w: World, event: Event)
    requires AllClean(w) && PossibleA(w, event)
    ensures AllClean(StepA(w, event))
  {
    hide Inv, WindowLabelled, Flush, FlushSegments, TakeIn;
    StepKeeps(w, event);
    match event
    case Write(msg) => WriteKeepsLabels(w.a, msg);
    case Read(capacity) => ReadKeepsLabels(w.a, capacity);
    case Deliver(segs, whole) =>
      InvGivesValid(w);
      DeliverKeepsLabels(w.a, segs, whole);
    case Push => FlushStepIsClean(w, w.a);
    case Elapse(now) =>
      var e := Tick(w.a, now).0;
      TickKeeps(w, now);
      TickKeepsLabels(w.a, now);
      FlushStepIsClean(w, e);
  }

  lemma InvGivesValid(w: World)
    requires Inv(w)
    ensures Valid(w.a)
  {
  }

  lemma WriteKeepsLabels(e: Endpoint, msg: seq<byte>)
    requires WindowLabelled(e) && e.cfg.mss > 0
    ensures var e' := Send(e, msg).0; WindowLabelled(e') && e'.cfg == e.cfg && e'.rcv == e.rcv
  {
  }

  lemma ReadKeepsLabels(e: Endpoint, capacity: nat)
    requires WindowLabelled(e)
    ensures var e' := Recv(e, capacity).0; WindowLabelled(e') && e'.cfg == e.cfg && e'.rcv.wnd == e.rcv.wnd
  {
    if RecvError(e.rcv.queue, capacity).None? {
      DrainKeepsWindow(e.rcv.(queue := e.rcv.queue[Span(Pieces(e.rcv.queue))..]));
    }
  }

  lemma TickKeepsLabels(e: Endpoint, now: u32)
    requires WindowLabelled(e)
    ensures var e' := Tick(e, now).0; WindowLabelled(e') && e'.cfg == e.cfg && e'.rcv == e.rcv
  {
  }

  lemma {:induction false} RunKeepsClean(w: World, moves: seq<Move>)
    requires AllClean(w) && IsRun(w, moves)
    ensures AllClean(After(w, moves))
    decreases |moves|
  {
    hide Inv, WindowLabelled, Clean, StepA;
    if moves != [] {
      FlipKeepsClean(w);
      StepKeepsClean(Facing(w, moves[0].atA), moves[0].event);
      FlipKeepsClean(StepA(Facing(w, moves[0].atA), moves[0].event));
      RunKeepsClean(Next(w, moves[0]), moves[1..]);
    }
  }

  lemma FlipKeepsClean(w: World)
    ensures AllClean(Flip(w)) <==> AllClean(w)
  {
    hide Good, Valid;
    FlipKeepsInv(w);
  }

  lemma SeenIsClean(w: World, moves: seq<Move>, atA: bool)
    requires Initial(w) && IsRun(w, moves)
    ensures AllClean(Seen(w, moves, atA))
  {
    hide Inv;
    InitialIsInv(w);
    RunKeepsClean(w, moves);
    FlipKeepsClean(After(w, moves));
  }

  // ---------- Sizes

  lemma {:induction false} StreamPiecesAreSmall(mss: nat, msgs: seq<seq<byte>>, i: nat)
    requires mss > 0 && AllSendable(mss, msgs) && i < |Stream(mss, msgs)|
    ensures |Stream(mss, msgs)[i].data| <= mss
    decreases |msgs|
  {
    var f := Fragment(mss, msgs[0]);
    if i < |f| {
      FragmentShape(mss, msgs[0], i);
    } else {
      StreamPiecesAreSmall(mss, msgs[1..], i - |f|);
    }
  }

  /** Nothing on its way is larger than a maximal segment. */
  lemma InFlightIsSmall(w: World, p: Segment)
    requires AllClean(w) && p in w.fromA
    ensures |p.data| <= w.a.cfg.mss
  {
    hide Valid;
    InvParts(w);
    if p.cmd == CMD_PUSH {
      assert Genuine(p, w.a.snd.nxt, Stream(w.a.cfg.mss, w.sentA));
      StreamPiecesAreSmall(w.a.cfg.mss, w.sentA, p.sn);
    }
  }

  // ---------- Datagrams of a flush

  /** What a reachable endpoint flushes fits the segment size. */
  lemma FlushedIsSmall(w: World, x: Segment)
    requires AllClean(w) && x in FlushSegments(w.a)
    ensures |x.data| <= w.a.cfg.mss
  {
    hide FlushSegments, TakeIn, StepA;
    var v := w.(a := Flush(w.a), fromA := w.fromA + AsSet(FlushSegments(w.a)));
    InvParts(w);
    StepKeepsClean(w, Push);
    FlushKeepsLabels(w.a);
    assert StepA(w, Push) == v by { PushIsFlush(w); }
    InFlightIsSmall(v, x);
  }

  lemma PushIsFlush(w: World)
    requires w.a.cfg.mss > 0
    ensures StepA(w, Push) == w.(a := Flush(w.a), fromA := w.fromA + AsSet(FlushSegments(w.a)))
  {
  }

  /** When the buffer asks to be written out before every segment, every write of a flush of a reachable endpoint is
      empty or one whole segment within the size limit: the acknowledgements, probes and due data of the flush, each
      by itself, in order. */
  lemma FlushWritesSingles(w: World, moves: seq<Move>, atA: bool, k: Packer, start: Out)
    requires Initial(w) && IsRun(w, moves) && start.buffer == []
    requires var cfg := Seen(w, moves, atA).a.cfg; OneEach(k, cfg.mtu, cfg.mss)
    ensures var v := Seen(w, moves, atA);
            var out := FlushSegments(v.a);
            && Packing.Deliver(k, v.a.cfg.mtu, start, out) == Out([], start.written + [[]] + Singles(out))
            && forall i :: 0 <= i < |out| ==> |Singles(out)[i]| <= OVERHEAD + v.a.cfg.mss
  {
    hide Initial, IsRun, AllClean, FlushSegments, OneEach;
    var v := Seen(w, moves, atA);
    SeenIsClean(w, moves, atA);
    FlushesSmall(v);
    OneSegmentPerDatagram(k, v.a.cfg.mtu, v.a.cfg.mss, start, FlushSegments(v.a));
  }

  lemma FlushesSmall(w: World)
    requires AllClean(w)
    ensures AllSmall(FlushSegments(w.a), w.a.cfg.mss)
  {
    hide AllClean, FlushSegments;
    var out := FlushSegments(w.a);
    forall i | 0 <= i < |out| ensures |out[i].data| <= w.a.cfg.mss {
      FlushedIsSmall(w, out[i]);
    }
  }

  /** The order of a flush: one acknowledgement for each number owed, with its time; then at most a window request
      and a window announcement; then, in order of their numbers, exactly the segments of the window that are due,
      in the form in which they stay in the window. */
  lemma FlushOrder(e: Endpoint)
    requires Valid(e) && e.clk.updated
    ensures var out, k := FlushSegments(e), |e.acks|;
            && |out| >= k
            && (forall i :: 0 <= i < k ==>
                  out[i].cmd == CMD_ACK && out[i].sn == e.acks[i].sn && out[i].ts == e.acks[i].ts)
    ensures var probe := ProbeSegments(AfterAcks(Template(e), e.acks),
                                       WindowProbe.ProbeStep(e.probe, e.rmtWnd, e.clk.current));
            && |probe| <= 2
            && FlushSegments(e)[|e.acks|..] == probe + DataSegments(e)
    ensures Sorted(DataSegments(e))
    ensures forall i :: 0 <= i < |Flush(e).snd.buf| ==>
              var g, v := Admitted(e).buf[i], Flush(e).snd.buf[i];
              v.sn == g.sn && v.xmit >= 1 && (v in DataSegments(e) <==> DueOf(g, PaceOf(e)) != NotDue)
  {
    hide WindowProbe.ProbeStep, OnFlush, Visit, DueOf, Transmitted, Admit, Sorted;
    var s, p := Admitted(e), PaceOf(e);
    ControlKeepsWindow(e);
    AdmitKeepsSender(e.snd, WindowLimit(e), StampOf(e));
    SortedBuf(s);
    TransmittedSorted(s.buf, p);
    forall i | 0 <= i < |s.buf|
      ensures var g, v := s.buf[i], VisitAll(s.buf, p)[i];
              v.sn == g.sn && v.xmit >= 1 && (v in Transmitted(s.buf, p) <==> DueOf(g, p) != NotDue)
    {
      VisitKeepsShape(s.buf, p, i);
      VisitedIffDue(s.buf, p, i);
    }
  }

  lemma SortedBuf(s: Sender)
    requires SndOk(s)
    ensures Sorted(s.buf)
  {
  }

  lemma VisitedIffDue(buf: seq<Segment>, p: Pace, i: nat)
    requires Sorted(buf) && i < |buf|
    ensures VisitAll(buf, p)[i] in Transmitted(buf, p) <==> DueOf(buf[i], p) != NotDue
  {
    hide Visit, DueOf, Transmitted;
    var v := VisitAll(buf, p)[i];
    VisitKeepsShape(buf, p, i);
    TransmittedMembers(buf, p, v);
    if v in Transmitted(buf, p) {
      var g :| g in buf && DueOf(g, p) != NotDue && Visit(g, p) == v;
      var j :| 0 <= j < |buf| && buf[j] == g;
      VisitKeepsShape(buf, p, j);
      assert j == i;
    } else {
      assert buf[i] in buf;
    }
  }

  lemma TransmittedNumber(buf: seq<Segment>, p: Pace, x: Segment)
    requires x in Transmitted(buf, p)
    ensures HasSn(buf, x.sn)
  {
    hide DueOf, Transmitted;
    TransmittedMembers(buf, p, x);
    var g :| g in buf && DueOf(g, p) != NotDue && Visit(g, p) == x;
    assert g.sn == x.sn;
  }

  lemma {:induction false} TransmittedSorted(buf: seq<Segment>, p: Pace)
    requires Sorted(buf)
    ensures Sorted(Transmitted(buf, p))
  {
    hide Visit, DueOf;
    if buf != [] {
      var rest := buf[1..];
      var t := Transmitted(rest, p);
      TransmittedSorted(rest, p);
      VisitKeepsShape(buf, p, 0);
      assert VisitAll(buf, p)[0] == Visit(buf[0], p);
      forall j | 0 <= j < |t| ensures buf[0].sn < t[j].sn {
        TransmittedNumber(rest, p, t[j]);
        var g :| g in rest && g.sn == t[j].sn;
      }
    }
  }
}
