/** Two endpoints and a network that may lose, repeat, delay and reorder segments, as a transition system. Each
    step is one operation of one endpoint; the network is the set of all segments ever handed to it, any of which
    may arrive at any time and any number of times. */
module Network {
  import opened Machine
  import opened Wire
  import opened Message
  import opened SendWindow
  import opened ReceiveWindow
  import opened Retransmission
  import opened RttEstimator
  import opened CongestionWindow
  import opened Protocol
  import opened Link

  /** The endpoints, everything each has handed to the network, and the messages each application has had
      accepted and been given. */
  datatype World = World(a: Endpoint, b: Endpoint, fromA: set<Segment>, fromB: set<Segment>,
                         sentA: seq<seq<byte>>, sentB: seq<seq<byte>>, gotA: seq<seq<byte>>, gotB: seq<seq<byte>>)

  /** An operation of an endpoint. `Deliver` is the arrival of a datagram: the segments that are handled, and whether
      `input` comes to its end or stops with an error behind the last of them. */
  datatype Event =
    | Write(msg: seq<byte>)
    | Read(capacity: nat)
    | Deliver(segs: seq<Segment>, whole: bool)
    | Elapse(now: u32)
    | Push

  datatype Move = Move(atA: bool, event: Event)

  function AsSet(segs: seq<Segment>): set<Segment> {
    set g | g in segs
  }

  /** An operation of endpoint A. */
  function StepA(w: World, event: Event): World
    requires w.a.cfg.mss > 0
  {
    match event
    case Write(msg) =>
      var (e, r) := Send(w.a, msg);
      w.(a := e, sentA := if r.Ok? then w.sentA + [msg] else w.sentA)
    case Read(capacity) =>
      var (e, r) := Recv(w.a, capacity);
      w.(a := e, gotA := if r.Ok? then w.gotA + [r.value] else w.gotA)
    case Deliver(segs, whole) => w.(a := TakeIn(w.a, segs, whole))
    case Elapse(now) =>
      var (e, out) := Update(w.a, now);
      w.(a := e, fromA := w.fromA + AsSet(out))
    case Push => w.(a := Flush(w.a), fromA := w.fromA + AsSet(FlushSegments(w.a)))
  }

  function Flip(w: World): World {
    World(w.b, w.a, w.fromB, w.fromA, w.sentB, w.sentA, w.gotB, w.gotA)
  }

  /** The network delivers only what was handed to it. */
  predicate PossibleA(w: World, event: Event) {
    w.a.cfg.mss > 0 && (event.Deliver? ==> forall g :: g in event.segs ==> g in w.fromB)
  }

  predicate Possible(w: World, m: Move) {
    PossibleA(if m.atA then w else Flip(w), m.event)
  }

  function Next(w: World, m: Move): World
    requires Possible(w, m)
  {
    if m.atA then StepA(w, m.event) else Flip(StepA(Flip(w), m.event))
  }

  /** A run: every move is possible where it is made. */
  ghost predicate IsRun(w: World, moves: seq<Move>)
    decreases |moves|
  {
    moves == [] || (Possible(w, moves[0]) && IsRun(Next(w, moves[0]), moves[1..]))
  }

  function After(w: World, moves: seq<Move>): World
    requires IsRun(w, moves)
    decreases |moves|
  {
    if moves == [] then w else After(Next(w, moves[0]), moves[1..])
  }

  /** Two endpoints of one connection, configured in any way, before anything was sent. */
  ghost predicate Initial(w: World) {
    && InitialEndpoint(w.a) && InitialEndpoint(w.b) && w.a.cfg.conv == w.b.cfg.conv
    && w == World(w.a, w.b, {}, {}, [], [], [], [])
  }

  ghost predicate InitialEndpoint(e: Endpoint) {
    Valid(e) && e.snd == Sender(0, 0, [], []) && e.rcv == Receiver(0, e.rcv.wnd, [], []) && e.acks == []
  }

  // ---------- The invariant

  function FromA(w: World): Link {
    Link(w.a.cfg.mss, w.a.snd, w.b.rcv, w.b.acks, w.fromA, w.fromB, w.sentA, w.gotB)
  }

  function FromB(w: World): Link {
    FromA(Flip(w))
  }

  ghost predicate Inv(w: World) {
    Valid(w.a) && Valid(w.b) && Good(FromA(w)) && Good(FromB(w))
  }

  lemma FlipKeepsInv(w: World)
    ensures Inv(Flip(w)) <==> Inv(w)
  {
  }

  lemma InitialIsInv(w: World)
    requires Initial(w)
    ensures Inv(w)
  {
    assert Stream(w.a.cfg.mss, []) == [] && Stream(w.b.cfg.mss, []) == [];
  }

  // ---------- Each step keeps it

  lemma WriteKeeps(w: World, msg: seq<byte>)
    requires Inv(w)
    ensures Inv(StepA(w, Write(msg)))
  {
    hide Valid, Good;
    InvParts(w);
    SendKeepsValid(w.a, msg);
    if Sendable(w.a.cfg.mss, msg) {
      SendKeeps(FromA(w), msg);
    }
  }

  lemma InvParts(w: World)
    requires Inv(w)
    ensures w.a.cfg.mss > 0 && w.b.cfg.mss > 0 && SndOk(w.a.snd)
  {
  }

  lemma ReadKeeps(w: World, capacity: nat)
    requires Inv(w)
    ensures Inv(StepA(w, Read(capacity)))
  {
    hide Valid, Good, Drain, Span, Join, PeekSize;
    InvParts(w);
    RecvKeepsValid(w.a, capacity);
    if RecvError(w.a.rcv.queue, capacity).None? {
      RecvKeeps(FromB(w));
    }
  }

  lemma HeaderKeeps(w: World, p: Segment)
    requires Inv(w) && p in w.fromB
    ensures Inv(w.(a := TakeHeader(w.a, p)))
  {
    hide Valid, Good, TakeUna;
    AcksKeepValid(w.a, p);
    UnaKeeps(FromA(w), p);
  }

  lemma CommandKeeps(w: World, s: Scan, p: Segment)
    requires Inv(w.(a := s.e)) && p in w.fromB
    ensures Inv(w.(a := Command(s, p).e))
  {
    hide Valid, Good, TakeAck, TakeData, TakeSample;
    var v := w.(a := s.e);
    if p.cmd == CMD_ACK {
      AcksKeepValid(s.e, p);
      AckKeeps(FromA(v), p);
    } else if p.cmd == CMD_PUSH {
      PushKeepsValid(s.e, p);
      if p.sn < s.e.rcv.nxt + s.e.rcv.wnd {
        PushKeeps(FromB(v), p);
      }
    } else if p.cmd == CMD_WASK {
      TellKeepsValid(s.e);
    }
  }

  lemma TellKeepsValid(e: Endpoint)
    requires Valid(e)
    ensures Valid(e.(probe := e.probe.(askTell := true)))
  {
  }

  lemma {:induction false} HandleAllKeeps(w: World, s: Scan, segs: seq<Segment>)
    requires Inv(w.(a := s.e)) && forall p :: p in segs ==> p in w.fromB
    ensures Inv(w.(a := HandleAll(s, segs).e))
    decreases |segs|
  {
    hide Inv;
    if segs != [] {
      var p := segs[0];
      HeaderKeeps(w.(a := s.e), p);
      CommandKeeps(w, s.(e := TakeHeader(s.e, p)), p);
      HandleAllKeeps(w, Handle(s, p), segs[1..]);
    }
  }

  lemma ConcludeKeeps(w: World, s: Scan, oldUna: nat)
    requires Inv(w.(a := s.e))
    ensures Inv(w.(a := Conclude(s, oldUna)))
  {
    hide Valid, Good, TakeFastack, OnAdvance;
    InvParts(w.(a := s.e));
    ConcludeKeepsValid(s, oldUna);
    if s.acked {
      FastackKeeps(FromA(w.(a := s.e)), s.maxAck);
    }
  }

  lemma DeliverKeeps(w: World, segs: seq<Segment>, whole: bool)
    requires Inv(w) && forall p :: p in segs ==> p in w.fromB
    ensures Inv(StepA(w, Deliver(segs, whole)))
  {
    hide Inv, HandleAll, Conclude;
    InvParts(w);
    assert w.(a := w.a) == w;
    HandleAllKeeps(w, Scan(w.a, false, 0), segs);
    ConcludeKeeps(w, HandleAll(Scan(w.a, false, 0), segs), w.a.snd.una);
  }

  /** The control segments of a flush are no data, and acknowledge only what is owed. */
  lemma ControlSegmentsMeaning(e: Endpoint, x: Segment)
    requires x in ControlSegments(e)
    ensures x.una == e.rcv.nxt && x.cmd != CMD_PUSH && x.conv == e.cfg.conv && KnownCommand(x.cmd)
    ensures x.wnd == Unused(e.rcv) && x.data == []
    ensures x.cmd == CMD_ACK || x.sn != 0 ==> exists k :: k in e.acks && k.sn == x.sn
  {
    var t := Template(e);
    var acks := AckSegments(t, e.acks);
    if x in acks {
      var i :| 0 <= i < |acks| && acks[i] == x;
      assert e.acks[i] in e.acks;
    } else if e.acks != [] {
      assert e.acks[|e.acks| - 1] in e.acks;
    }
  }

  /** Data segments of a flush are pushes and carry the next number expected. */
  lemma DataSegmentsMeaning(e: Endpoint, all: seq<Piece>, x: Segment)
    requires Source(e.snd, all) && x in DataSegments(e)
    ensures x.una == e.rcv.nxt && x.cmd == CMD_PUSH && x.wnd == Unused(e.rcv)
  {
    var b := Admitted(e).buf;
    AdmittedIsGenuine(e.snd, WindowLimit(e), StampOf(e), all);
    TransmittedMembers(b, PaceOf(e), x);
    var g :| g in b && DueOf(g, PaceOf(e)) != NotDue && Visit(g, PaceOf(e)) == x;
    assert Genuine(g, Admitted(e).nxt, all);
  }

  lemma FlushKeeps(w: World)
    requires Inv(w)
    ensures Inv(w.(a := Flush(w.a), fromA := w.fromA + AsSet(FlushSegments(w.a))))
  {
    hide Valid, Good, VisitAll, Transmitted, Admit, OnFlush, ControlSegments;
    InvParts(w);
    FlushKeepsValid(w.a);
    var e, out := w.a, AsSet(FlushSegments(w.a));
    if e.clk.updated {
      FlushAtSender(w, out);
      FlushAtReceiver(w, out);
    } else {
      assert w.fromA + out == w.fromA;
    }
  }

  lemma FlushAtSender(w: World, out: set<Segment>)
    requires Inv(w) && w.a.clk.updated && out == AsSet(FlushSegments(w.a))
    ensures Good(FromA(w).(s := Flush(w.a).snd, fwd := w.fromA + out))
  {
    hide VisitAll, Transmitted, Admit, OnFlush, ControlSegments;
    var e := w.a;
    var s, p := Admitted(e), PaceOf(e);
    ControlKeepsWindow(e);
    forall x | x in out && x.cmd == CMD_PUSH ensures x in Transmitted(s.buf, p) {
      if x in ControlSegments(e) {
        ControlSegmentsMeaning(e, x);
      }
    }
    DataFlushKeeps(FromA(w), WindowLimit(e), StampOf(e), p, out);
  }

  lemma FlushAtReceiver(w: World, out: set<Segment>)
    requires Inv(w) && w.a.clk.updated && out == AsSet(FlushSegments(w.a))
    ensures Good(FromB(w).(acks := [], back := w.fromA + out))
  {
    hide DataSegments, ControlSegments;
    var e := w.a;
    forall x | x in out
      ensures x.una == e.rcv.nxt && (x.cmd == CMD_ACK ==> exists k :: k in e.acks && k.sn == x.sn)
    {
      if x in ControlSegments(e) {
        ControlSegmentsMeaning(e, x);
      } else {
        DataSegmentsMeaning(e, Stream(e.cfg.mss, w.sentA), x);
      }
    }
    AckFlushKeeps(FromB(w), out);
  }

  lemma TickKeeps(w: World, now: u32)
    requires Inv(w)
    ensures Inv(w.(a := Tick(w.a, now).0))
  {
    hide Good;
    TickKeepsValid(w.a, now);
  }

  lemma StepKeeps(w: World, event: Event)
    requires Inv(w) && PossibleA(w, event)
    ensures Inv(StepA(w, event))
  {
    hide Inv, Send, Recv, TakeIn, Flush, FlushSegments, Tick;
    match event
    case Write(msg) => WriteKeeps(w, msg);
    case Read(capacity) => ReadKeeps(w, capacity);
    case Deliver(segs, whole) => DeliverKeeps(w, segs, whole);
    case Push => FlushKeeps(w);
    case Elapse(now) =>
      TickKeeps(w, now);
      FlushKeeps(w.(a := Tick(w.a, now).0));
      assert w.fromA + AsSet([]) == w.fromA;
  }

  lemma NextKeeps(w: World, m: Move)
    requires Inv(w) && Possible(w, m)
    ensures Inv(Next(w, m))
  {
    hide Inv, StepA;
    if m.atA {
      StepKeeps(w, m.event);
    } else {
      FlipKeepsInv(w);
      StepKeeps(Flip(w), m.event);
      FlipKeepsInv(StepA(Flip(w), m.event));
    }
  }

  lemma {:induction false} RunKeeps(w: World, moves: seq<Move>)
    requires Inv(w) && IsRun(w, moves)
    ensures Inv(After(w, moves))
    decreases |moves|
  {
    hide Inv;
    if moves != [] {
      NextKeeps(w, moves[0]);
      RunKeeps(Next(w, moves[0]), moves[1..]);
    }
  }

  // ---------- What every run satisfies

  /** In every reachable state the invariant holds. */
  lemma ReachableIsInv(w: World, moves: seq<Move>)
    requires Initial(w) && IsRun(w, moves)
    ensures Inv(After(w, moves))
  {
    InitialIsInv(w);
    RunKeeps(w, moves);
  }

  /** End-to-end safety: in every run, over every network behaviour, the messages an application has been given
      are a prefix of the messages the other one had accepted: in order, once each, byte for byte. */
  lemma EndToEndSafety(w: World, moves: seq<Move>)
    requires Initial(w) && IsRun(w, moves)
    ensures After(w, moves).gotB <= After(w, moves).sentA
    ensures After(w, moves).gotA <= After(w, moves).sentB
  {
    ReachableIsInv(w, moves);
  }

  /** A world seen with the given endpoint as A. */
  function Facing(w: World, atA: bool): World {
    if atA then w else Flip(w)
  }

  /** A reachable state, seen from either end. */
  function Seen(w: World, moves: seq<Move>, atA: bool): World
    requires IsRun(w, moves)
  {
    Facing(After(w, moves), atA)
  }

  lemma SeenIsInv(w: World, moves: seq<Move>, atA: bool)
    requires Initial(w) && IsRun(w, moves)
    ensures Inv(Seen(w, moves, atA))
  {
    ReachableIsInv(w, moves);
    FlipKeepsInv(After(w, moves));
  }

  /** Nothing is lost: in every reachable state each number given out is still in the send window or has been
      received, and no acknowledgement on its way names anything else. */
  lemma NoSegmentIsLost(w: World, moves: seq<Move>, atA: bool, n: nat)
    requires Initial(w) && IsRun(w, moves) && n < Seen(w, moves, atA).a.snd.nxt
    ensures var v := Seen(w, moves, atA); HasSn(v.a.snd.buf, n) || Received(v.b.rcv, n)
    ensures var v := Seen(w, moves, atA);
            forall p :: p in v.fromB ==> p.una <= v.b.rcv.nxt && (p.cmd == CMD_ACK ==> Received(v.b.rcv, p.sn))
  {
    SeenIsInv(w, moves, atA);
  }

  /** The windows stay coupled: what is expected next has at most been given out, and what is acknowledged lies
      within the receive window, or below its start unless the queue is full. */
  lemma WindowCoupling(w: World, moves: seq<Move>, atA: bool)
    requires Initial(w) && IsRun(w, moves)
    ensures var v := Seen(w, moves, atA);
            && v.b.rcv.nxt <= v.a.snd.nxt
            && v.a.snd.una <= v.b.rcv.nxt + v.b.rcv.wnd
            && (|v.b.rcv.queue| < v.b.rcv.wnd ==> v.a.snd.una <= v.b.rcv.nxt)
  {
    SeenIsInv(w, moves, atA);
    WindowsCoupled(FromA(Seen(w, moves, atA)));
  }

  /** Taking in the segment at the front of the peer's window, wherever the receive window has room for it, owes
      its acknowledgement, and the next flush hands that out, with the time that the segment carried. */
  lemma FrontIsAcknowledged(e: Endpoint, p: Segment, whole: bool)
    requires e.cfg.mss > 0 && p.cmd == CMD_PUSH && p.sn < e.rcv.nxt + e.rcv.wnd && e.clk.updated
    ensures var out := FlushSegments(TakeIn(e, [p], whole));
            exists q :: q in out && q.cmd == CMD_ACK && q.sn == p.sn && q.ts == p.ts
  {
    hide TakeUna, TakeData, DataSegments, OnAdvance;
    var s := Scan(e, false, 0);
    assert HandleAll(s, [p]) == HandleAll(Handle(s, p), []);
    var e1 := TakeIn(e, [p], whole);
    var k := |e1.acks| - 1;
    assert e1.acks[k] == Ack(p.sn, p.ts);
    var q := AckSegments(Template(e1), e1.acks)[k];
    assert q in ControlSegments(e1);
    assert q in FlushSegments(e1) && q.cmd == CMD_ACK && q.sn == p.sn && q.ts == p.ts;
  }

  /** An acknowledgement of the front of the window moves the sender forward. */
  lemma FrontAckMoves(e: Endpoint, q: Segment, whole: bool)
    requires Valid(e) && e.snd.buf != [] && q.cmd == CMD_ACK && q.sn == e.snd.una
    ensures e.cfg.mss > 0 && TakeIn(e, [q], whole).snd.una > e.snd.una
  {
    hide Valid, SndOk, TakeSample, OnAdvance, TakeUna, TakeAck, TakeFastack;
    ValidParts(e);
    var s := Scan(e, false, 0);
    assert HandleAll(s, [q]) == HandleAll(Handle(s, q), []);
    var mid := TakeUna(e.snd, q.una);
    AcksKeepSender(e.snd, q.una, 0);
    AcksKeepSender(mid, 0, q.sn);
    FastackKeepsSender(TakeAck(mid, q.sn), q.sn);
    if mid.una == e.snd.una {
      FrontStays(e.snd, q.una);
      FrontAckAdvances(mid);
    }
  }

  lemma FrontStays(s: Sender, una: nat)
    requires SndOk(s) && s.buf != [] && TakeUna(s, una).una == s.una
    ensures TakeUna(s, una).buf != []
  {
  }

  /** Progress: in every reachable state, if the send window is not empty and its front lies below the end of the
      receive window, then some segment on its way, once it arrives and the receiver flushes, gives an
      acknowledgement whose arrival moves the sender strictly forward, whether `input` comes to its end or not. */
  lemma ProgressIsPossible(w: World, moves: seq<Move>, atA: bool, whole: bool, whole': bool)
    requires Initial(w) && IsRun(w, moves)
    requires var v := Seen(w, moves, atA);
             v.a.snd.buf != [] && v.a.snd.una < v.b.rcv.nxt + v.b.rcv.wnd && v.b.clk.updated
    ensures var v := Seen(w, moves, atA);
            v.a.cfg.mss > 0 && v.b.cfg.mss > 0 &&
            exists p, q :: p in v.fromA && q in FlushSegments(TakeIn(v.b, [p], whole))
                        && TakeIn(v.a, [q], whole').snd.una > v.a.snd.una
  {
    hide Initial, IsRun, TakeIn, FlushSegments;
    var v := Seen(w, moves, atA);
    SeenIsInv(w, moves, atA);
    FrontProgress(FromA(v));
    var p :| p in v.fromA && p.cmd == CMD_PUSH && p.sn == v.a.snd.una;
    FrontIsAcknowledged(v.b, p, whole);
    var q :| q in FlushSegments(TakeIn(v.b, [p], whole)) && q.cmd == CMD_ACK && q.sn == p.sn;
    FrontAckMoves(v.a, q, whole');
  }

  /** The answer to reading, in every reachable state and for every buffer: end of file exactly when nothing is queued;
      unexpected end exactly when some but not all fragments of the next message are; a short buffer exactly when all
      are but the message is longer than the buffer; and otherwise that message. */
  lemma HeadOfLine(w: World, moves: seq<Move>, atA: bool, capacity: nat)
    requires Initial(w) && IsRun(w, moves)
    ensures var v := Seen(w, moves, atA); var q, r := v.b.rcv.queue, Recv(v.b, capacity).1;
            && v.a.cfg.mss > 0
            && (r == Err(EndOfFile) <==> q == [])
            && (|v.gotB| >= |v.sentA| ==> q == [])
            && (|v.gotB| < |v.sentA| ==>
                  var msg := v.sentA[|v.gotB|];
                  var n := Count(v.a.cfg.mss, |msg|);
                  && n > 0
                  && (r == Err(UnexpectedEof) <==> 0 < |q| < n)
                  && (r == Err(InvalidInput) <==> |q| >= n && capacity < |msg|)
                  && (r == Ok(msg) <==> |q| >= n && capacity >= |msg|)
                  && (r.Ok? ==> r == Ok(msg)))
  {
    hide Initial, IsRun, Good, Take, Span, Join, PeekSize;
    var v := Seen(w, moves, atA);
    SeenIsInv(w, moves, atA);
    InvParts(v);
    FrontMessage(FromA(v));
    assert |Pieces(v.b.rcv.queue)| == |v.b.rcv.queue|;
    if |v.gotB| < |v.sentA| {
      NextIsSendable(v);
      CountIsCeiling(v.a.cfg.mss, |v.sentA[|v.gotB|]|);
    }
  }

  lemma NextIsSendable(v: World)
    requires Inv(v) && |v.gotB| < |v.sentA|
    ensures v.sentA[|v.gotB|] != []
  {
  }

  /** A full queue blocks the head of the line exactly when the front message has more fragments than the receive
      window: otherwise reading it succeeds; and while it blocks, no arrival moves the window. */
  lemma FullQueue(w: World, moves: seq<Move>, atA: bool, capacity: nat, g: Segment)
    requires Initial(w) && IsRun(w, moves)
    requires var v := Seen(w, moves, atA);
             |v.gotB| < |v.sentA| && |v.b.rcv.queue| == v.b.rcv.wnd && capacity >= |v.sentA[|v.gotB|]|
    ensures var v := Seen(w, moves, atA);
            && v.a.cfg.mss > 0
            && (Recv(v.b, capacity).1.Ok? <==> Count(v.a.cfg.mss, |v.sentA[|v.gotB|]|) <= v.b.rcv.wnd)
            && TakeData(v.b.rcv, g).nxt == v.b.rcv.nxt && TakeData(v.b.rcv, g).queue == v.b.rcv.queue
  {
    HeadOfLine(w, moves, atA, capacity);
    if InWindow(Seen(w, moves, atA).b.rcv, g.sn) {
      var r := Seen(w, moves, atA).b.rcv;
      assert Drain(r.(buf := Insert(r.buf, g))) == r.(buf := Insert(r.buf, g));
    }
  }
}
