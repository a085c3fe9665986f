/** Going on after losses, on bytes: when segments travel alone, what `Recovery` says of segments holds of the datagrams
    that are written from some moment on. */
module ByteRecovery {
  import opened Machine
  import opened Wire
  import opened Protocol
  import opened Packing
  import opened Datagram
  import opened Delivery
  import opened Runs
  import opened ByteNetwork
  import Link
  import Network
  import Recovery

  // ---------- One more step is always possible

  /** A segment on its way to A: its bytes have been written, and arrive as that segment. */
  lemma ArrivesAlone(n: Net, p: Segment)
    requires ByteInv(n, true) && Legible(n.w, true) && p in n.w.fromB
    ensures Encode(p) in n.b.out.written && n.w.a.cfg.mss > 0
    ensures Input(n.w.a, Encode(p)).0 == TakeIn(n.w.a, [p], ReachesEnd(n.w.a, p))
  {
    hide AllClean, ControlNumbers, Input, TakeIn, ReachesEnd, Acceptable, Stops, Encode, Carried;
    InFlightIsAcceptable(n, true, p);
    SingleArrives(n.w.a, p);
  }

  /** A flush of a started endpoint writes each segment by itself. */
  lemma PushWrites(n: Net)
    requires ByteInv(n, true) && n.w.a.cfg.mss > 0 && n.w.a.clk.updated && Legible(n.w, true)
    ensures var v := StepA(n, Push);
            && ByteInv(v, true) && Legible(v.w, true) && v.w.b == n.w.b
            && v.a.out == Packing.Deliver(n.a.pack, n.w.a.cfg.mtu, n.a.out, FlushSegments(n.w.a))
            && forall g :: g in FlushSegments(n.w.a) ==> g in v.w.fromA
  {
    hide ByteInv, Legible, LegibleFrom, FlushSegments, Flush;
    StepKeepsByteInv(n, true, Push);
    StepFrame(n, Push);
    LegibleSame(n, StepA(n, Push));
  }

  lemma LegibleSame(n: Net, v: Net)
    requires Legible(n.w, true) && v.w.sentA == n.w.sentA && v.w.sentB == n.w.sentB
    requires v.w.a.cfg == n.w.a.cfg && v.w.b.cfg == n.w.b.cfg
    requires v.w.a.rcv.wnd == n.w.a.rcv.wnd && v.w.b.rcv.wnd == n.w.b.rcv.wnd
    ensures Legible(v.w, true)
  {
  }

  lemma ArriveKeeps(n: Net, p: Segment)
    requires ByteInv(n, true) && Legible(n.w, true) && p in n.w.fromB
    ensures n.w.a.cfg.mss > 0
    ensures var v := StepA(n, Arrive(Encode(p)));
            && ByteInv(v, true) && Legible(v.w, true) && PossibleA(n, Arrive(Encode(p)))
            && v == n.(w := n.w.(a := TakeIn(n.w.a, [p], ReachesEnd(n.w.a, p))))
  {
    hide ByteInv, Legible, LegibleFrom, TakeIn, ReachesEnd, Input, Encode, StepA;
    ArrivesAlone(n, p);
    ArrivalStep(n, Encode(p));
    StepKeepsByteInv(n, true, Arrive(Encode(p)));
    StepFrame(n, Arrive(Encode(p)));
    LegibleSame(n, StepA(n, Arrive(Encode(p))));
  }

  /** What a flush after the arrival of `p` hands out reaches the other side. */
  lemma AnswerArrives(n: Net, p: Segment, q: Segment)
    requires ByteInv(n, true) && Legible(n.w, true) && p in n.w.fromB && n.w.a.clk.updated && n.w.a.cfg.mss > 0
    requires q in FlushSegments(TakeIn(n.w.a, [p], ReachesEnd(n.w.a, p)))
    ensures var e := Input(n.w.a, Encode(p)).0;
            Encode(q) in Packing.Deliver(n.a.pack, e.cfg.mtu, n.a.out, FlushSegments(e)).written
    ensures n.w.b.cfg.mss > 0 && Input(n.w.b, Encode(q)).0 == TakeIn(n.w.b, [q], ReachesEnd(n.w.b, q))
  {
    hide ByteInv, Legible, TakeIn, ReachesEnd, Input, Encode, StepA, FlushSegments;
    ArrivesAlone(n, p);
    ArriveKeeps(n, p);
    Recovery.InputFrame(n.w.a, p, ReachesEnd(n.w.a, p));
    var v := StepA(n, Arrive(Encode(p)));
    PushWrites(v);
    var u := StepA(v, Push);
    FlipKeepsByteInv(u, true);
    ArrivesAlone(Flip(u), q);
  }

  /** Progress on bytes: in every reachable state, if the send window is not empty and its front lies below the end of
      the receive window, then some datagram that has been written, once it arrives and the receiver flushes, makes
      the receiver write a datagram whose arrival moves the sender strictly forward. */
  lemma ProgressIsPossible(n: Net, steps: seq<Step>, atA: bool)
    requires LegibleRun(n, true, steps)
    requires var w := Seen(n, steps, atA);
             w.a.snd.buf != [] && w.a.snd.una < w.b.rcv.nxt + w.b.rcv.wnd && w.b.clk.updated
    ensures var v := Facing(After(n, steps), atA);
            v.w.a.cfg.mss > 0 && v.w.b.cfg.mss > 0 &&
            exists d, answer ::
              && d in v.a.out.written
              && (var e := Input(v.w.b, d).0;
                  answer in Packing.Deliver(v.b.pack, e.cfg.mtu, v.b.out, FlushSegments(e)).written)
              && Input(v.w.a, answer).0.snd.una > v.w.a.snd.una
  {
    hide ByteInv, Legible, TakeIn, ReachesEnd, Input, Encode, FlushSegments, Packing.Deliver, OneEach, Network.Initial,
      IsRun, Network.IsRun;
    var moves := BytesRefineSegments(n, true, steps);
    var v := Facing(After(n, steps), atA);
    FlipKeepsByteInv(After(n, steps), true);
    FlipKeepsByteInv(v, true);
    var p := FrontCopy(v);
    var whole := ReachesEnd(v.w.b, p);
    Network.FrontIsAcknowledged(v.w.b, p, whole);
    var q :| q in FlushSegments(TakeIn(v.w.b, [p], whole)) && q.cmd == CMD_ACK && q.sn == p.sn;
    ArrivesAlone(Flip(v), p);
    AnswerArrives(Flip(v), p, q);
    InvIsValid(v, true);
    Network.FrontAckMoves(v.w.a, q, ReachesEnd(v.w.a, q));
    var d, answer := Encode(p), Encode(q);
    assert d in v.a.out.written;
    assert Input(v.w.a, answer).0.snd.una > v.w.a.snd.una;
  }

  lemma FrontCopy(v: Net) returns (p: Segment)
    requires ByteInv(v, true) && v.w.a.snd.buf != []
    ensures p in v.w.fromA && p.cmd == CMD_PUSH && p.sn == v.w.a.snd.una
    ensures v.w.a.cfg.mss > 0 && v.w.b.cfg.mss > 0
  {
    hide PortOk, ControlNumbers, Clean, WindowLabelled, Valid, Link.Good;
    Network.InvParts(v.w);
    Link.FrontProgress(Network.FromA(v.w));
    p :| p in v.w.fromA && p.cmd == CMD_PUSH && p.sn == v.w.a.snd.una;
  }

  // ---------- Continuations that use only what is written from now on

  /** Everything in `segs` has been written, each by itself, since the first `skip` datagrams. */
  ghost predicate WrittenSince(segs: set<Segment>, o: Out, skip: nat) {
    skip <= |o.written| && forall g :: g in segs ==> Encode(g) in o.written[skip..]
  }

  /** No step writes a message, and none delivers one of the first `skipA` datagrams of A or `skipB` of B. */
  predicate OnlyNew(n: Net, steps: seq<Step>, skipA: nat, skipB: nat)
    requires IsRun(n, steps)
    decreases |steps|
  {
    steps == [] ||
    (NewStep(n, steps[0], skipA, skipB) && OnlyNew(Next(n, steps[0]), steps[1..], skipA, skipB))
  }

  predicate NewStep(n: Net, s: Step, skipA: nat, skipB: nat) {
    var written, skip := Facing(n, s.atA).b.out.written, if s.atA then skipB else skipA;
    !s.op.Write? && (s.op.Arrive? ==> skip <= |written| && s.op.bytes in written[skip..])
  }

  /** The state on bytes that goes with a state of `Recovery`. */
  ghost predicate Tracks(c: Recovery.Conf, n: Net, skipA: nat, skipB: nat) {
    && ByteInv(n, true) && Legible(n.w, true) && n.w == c.w
    && WrittenSince(c.newA, n.a.out, skipA) && WrittenSince(c.newB, n.b.out, skipB)
  }

  /** The operation on bytes that goes with a move on segments. */
  function OpOf(event: Network.Event): Op
    requires event.Deliver? ==> |event.segs| == 1
  {
    match event
    case Write(msg) => Write(msg)
    case Read(capacity) => Read(capacity)
    case Deliver(segs, whole) => Arrive(Encode(segs[0]))
    case Elapse(now) => Elapse(now)
    case Push => Push
  }

  lemma WrittenMore(segs: set<Segment>, p: Port, e: Endpoint, from: set<Segment>, out: seq<Segment>, skip: nat)
    requires PortOk(p, e, from, true) && AllSmall(out, e.cfg.mss) && WrittenSince(segs, p.out, skip)
    ensures WrittenSince(segs + Network.AsSet(out), Packing.Deliver(p.pack, e.cfg.mtu, p.out, out), skip)
  {
    hide PortOk, Encode, Singles, AllSmall;
    AloneKeepsPort(p, e, from, out);
    var more := p.out.written + [[]] + Singles(out);
    forall g | g in segs + Network.AsSet(out) ensures Encode(g) in more[skip..] {
      if g in segs {
        assert more[skip..] == p.out.written[skip..] + [[]] + Singles(out);
      } else {
        SinglesMembers(out, Encode(g));
        assert more[skip..] == p.out.written[skip..] + [[]] + Singles(out);
      }
    }
  }

  lemma OutputIsHandedOut(w: Network.World, event: Network.Event)
    requires !event.Deliver?
    ensures Recovery.Output(w, Network.Move(true, event)) == HandedOut(w.a, OpOf(event))
  {
    hide FlushSegments, Flush;
    if event.Push? && !w.a.clk.updated {
      FlushUnstarted(w.a);
    }
  }

  lemma StepTracks(c: Recovery.Conf, event: Network.Event, n: Net, skipA: nat, skipB: nat)
    requires Tracks(c, n, skipA, skipB) && Recovery.Allowed(c, Network.Move(true, event))
    ensures var s := Step(true, OpOf(event));
            Possible(n, s) && NewStep(n, s, skipA, skipB)
            && Tracks(Recovery.Moved(c, Network.Move(true, event)), Next(n, s), skipA, skipB)
  {
    if event.Deliver? {
      ArrivalTracks(c, event, n, skipA, skipB);
    } else {
      PlainTracks(c, event, n, skipA, skipB);
    }
  }

  lemma ArrivalTracks(c: Recovery.Conf, event: Network.Event, n: Net, skipA: nat, skipB: nat)
    requires Tracks(c, n, skipA, skipB) && Recovery.Allowed(c, Network.Move(true, event)) && event.Deliver?
    ensures var s := Step(true, OpOf(event));
            Possible(n, s) && NewStep(n, s, skipA, skipB)
            && Tracks(Recovery.Moved(c, Network.Move(true, event)), Next(n, s), skipA, skipB)
  {
    hide ByteInv, Legible, TakeIn, ReachesEnd, StepA, Encode;
    var p := event.segs[0];
    assert event.segs == [p];
    ArriveKeeps(n, p);
    assert Network.AsSet([]) == {} && c.newA + {} == c.newA && c.newB + {} == c.newB;
  }

  lemma PlainTracks(c: Recovery.Conf, event: Network.Event, n: Net, skipA: nat, skipB: nat)
    requires Tracks(c, n, skipA, skipB) && Recovery.Allowed(c, Network.Move(true, event)) && !event.Deliver?
    ensures var s := Step(true, OpOf(event));
            Possible(n, s) && NewStep(n, s, skipA, skipB)
            && Tracks(Recovery.Moved(c, Network.Move(true, event)), Next(n, s), skipA, skipB)
  {
    hide ByteInv, Legible, StepA, Network.StepA, WrittenSince, Recovery.Output;
    var op := OpOf(event);
    PlainStep(n, op);
    StepKeepsByteInv(n, true, op);
    StepFrame(n, op);
    LegibleSame(n, StepA(n, op));
    OutputIsHandedOut(n.w, event);
    PortTracks(n, op, c.newA, skipA);
    assert c.newB + Network.AsSet([]) == c.newB;
  }

  lemma PortTracks(n: Net, op: Op, segs: set<Segment>, skip: nat)
    requires ByteInv(n, true) && PossibleA(n, op) && WrittenSince(segs, n.a.out, skip)
    ensures WrittenSince(segs + Network.AsSet(HandedOut(n.w.a, op)), StepA(n, op).a.out, skip)
  {
    hide AllClean, ControlNumbers, PortOk, Do, Flushes, FlushSegments, WrittenSince;
    if Flushes(n.w.a, op) {
      HandedOutIsSmall(n, true, op);
      WrittenMore(segs, n.a, n.w.a, n.w.fromA, HandedOut(n.w.a, op), skip);
    } else {
      assert segs + Network.AsSet([]) == segs;
    }
  }

  lemma MoveTracks(c: Recovery.Conf, m: Network.Move, n: Net, skipA: nat, skipB: nat)
    requires Tracks(c, n, skipA, skipB) && Recovery.Allowed(c, m)
    ensures var s := Step(m.atA, OpOf(m.event));
            Possible(n, s) && NewStep(n, s, skipA, skipB) && Tracks(Recovery.Moved(c, m), Next(n, s), skipA, skipB)
  {
    hide ByteInv, Legible, StepA, Recovery.Moved, WrittenSince;
    if m.atA {
      StepTracks(c, m.event, n, skipA, skipB);
    } else {
      var f, back := Recovery.FlipConf(c), Network.Move(true, m.event);
      FlipKeepsByteInv(n, true);
      Recovery.FlipMove(c, m);
      StepTracks(f, m.event, Flip(n), skipB, skipA);
      FlipKeepsByteInv(StepA(Flip(n), OpOf(m.event)), true);
      assert Recovery.FlipConf(Recovery.Moved(f, back)) == Recovery.Moved(c, m);
    }
  }

  /** What can be reached on segments handed out since some moment can be reached on datagrams written since. */
  lemma {:induction false} PathOnBytes(c: Recovery.Conf, moves: seq<Network.Move>, d: Recovery.Conf,
                                       n: Net, skipA: nat, skipB: nat) returns (steps: seq<Step>)
    requires Tracks(c, n, skipA, skipB) && Recovery.Path(c, moves, d)
    ensures IsRun(n, steps) && OnlyNew(n, steps, skipA, skipB) && After(n, steps).w == d.w
    decreases |moves|
  {
    hide Tracks, Next, NewStep, Recovery.Moved, Recovery.Allowed;
    if moves == [] {
      steps := [];
      TracksIsSame(c, n, skipA, skipB);
    } else {
      AllowedIsSingle(c, moves[0]);
      MoveTracks(c, moves[0], n, skipA, skipB);
      var s := Step(moves[0].atA, OpOf(moves[0].event));
      var rest := PathOnBytes(Recovery.Moved(c, moves[0]), moves[1..], d, Next(n, s), skipA, skipB);
      steps := [s] + rest;
      assert steps[1..] == rest;
    }
  }

  lemma TracksIsSame(c: Recovery.Conf, n: Net, skipA: nat, skipB: nat)
    requires Tracks(c, n, skipA, skipB)
    ensures n.w == c.w
  {
  }

  lemma AllowedIsSingle(c: Recovery.Conf, m: Network.Move)
    requires Recovery.Allowed(c, m)
    ensures Network.Possible(c.w, m) && (m.event.Deliver? ==> |m.event.segs| == 1)
  {
  }

  // ---------- The theorem

  lemma CanRecover(v: Net)
    requires ByteInv(v, true) && Legible(v.w, true) && v.w.a.cfg.mss > 0 && v.w.a.cfg.sndWnd > 0
    requires Recovery.AllFit(v.w, v.w.sentA)
    ensures exists more ::
              IsRun(v, more) && OnlyNew(v, more, |v.a.out.written|, |v.b.out.written|)
              && After(v, more).w.sentA == After(v, more).w.gotB == v.w.sentA
  {
    hide PortOk, ControlNumbers, Legible, Recovery.AllFit, Recovery.Path, IsRun, OnlyNew, Network.Inv, WindowLabelled,
      Clean;
    Recovery.CanRecover(v.w);
    var c := Recovery.Conf(v.w, {}, {});
    var d :| Recovery.Leads(c, d) && d.w.sentA == d.w.gotB == v.w.sentA;
    var moves :| Recovery.Path(c, moves, d);
    var more := PathOnBytes(c, moves, d, v, |v.a.out.written|, |v.b.out.written|);
  }

  /** Recovery on bytes: when segments travel alone and no fragment by itself can be taken for a segment, in every
      reachable state, even if every datagram written so far is lost, the endpoints can go on so that the receiving
      application is given exactly the messages accepted, if each of these messages has at most as many fragments as
      the receive window (and the sender has a send window at all). Otherwise no continuation does so that can be
      read, even if nothing is lost. */
  lemma RecoveryOnBytes(n: Net, steps: seq<Step>, atA: bool)
    requires LegibleRun(n, true, steps) && Seen(n, steps, atA).a.cfg.sndWnd > 0
    ensures var v := Facing(After(n, steps), atA);
            v.w.a.cfg.mss > 0 &&
            (Recovery.AllFit(v.w, v.w.sentA) ==>
               exists more ::
                 IsRun(v, more) && OnlyNew(v, more, |v.a.out.written|, |v.b.out.written|)
                 && After(v, more).w.sentA == After(v, more).w.gotB == v.w.sentA)
    ensures var v := Facing(After(n, steps), atA);
            !Recovery.AllFit(v.w, v.w.sentA) ==>
              forall more :: IsRun(v, more) && Legible(After(v, more).w, true) ==> After(v, more).w.gotB != v.w.sentA
  {
    hide ByteInv, Legible, IsRun, OnlyNew, Network.IsRun, Network.Initial, Recovery.AllFit, OneEach;
    var moves := BytesRefineSegments(n, true, steps);
    var v := Facing(After(n, steps), atA);
    FlipKeepsByteInv(After(n, steps), true);
    assert v.w == Network.Seen(n.w, moves, atA);
    Recovery.SeenFits(n.w, moves, atA);
    if Recovery.AllFit(v.w, v.w.sentA) {
      CanRecover(v);
    }
    forall more | IsRun(v, more) && Legible(After(v, more).w, true) && After(v, more).w.gotB == v.w.sentA
      ensures Recovery.AllFit(v.w, v.w.sentA)
    {
      var moves' := RunRefines(v, true, more);
      Network.SeenIsInv(n.w, moves, atA);
      Recovery.RunFits(v.w, moves');
      SameFit(v.w, Network.After(v.w, moves'), v.w.sentA);
    }
  }

  lemma SameFit(w: Network.World, v: Network.World, msgs: seq<seq<byte>>)
    requires w.a.cfg.mss > 0 && v.a.cfg == w.a.cfg && v.b.rcv.wnd == w.b.rcv.wnd
    ensures Recovery.AllFit(v, msgs) <==> Recovery.AllFit(w, msgs)
  {
  }
}
