/** Two endpoints that exchange datagrams of bytes: a step is an operation of an endpoint, a flush writes datagrams the
    way the output buffer packs them, and any datagram ever written may arrive at any time and any number of times.
    Every such run does what a run of the segment-level network does, as long as no fragment can be taken for a
    segment; so what holds there holds of the bytes. */
module ByteNetwork {
  import opened Machine
  import opened Wire
  import opened Message
  import opened SendWindow
  import opened ReceiveWindow
  import opened Protocol
  import opened Packing
  import opened Datagram
  import opened Link
  import opened Delivery
  import opened Runs
  import Network

  /** One end's way to the network: how its output buffer behaves, and what it holds and has written. */
  datatype Port = Port(pack: Packer, out: Out)

  /** The endpoints and what the applications have seen, as in the segment-level network, whose sets of segments
      record what the flushes have handed to the output; and the two ports. */
  datatype Net = Net(w: Network.World, a: Port, b: Port)

  function Flip(n: Net): Net {
    Net(Network.Flip(n.w), n.b, n.a)
  }

  function Facing(n: Net, atA: bool): Net {
    if atA then n else Flip(n)
  }

  /** The segments that an operation hands to the output. */
  function HandedOut(e: Endpoint, op: Op): seq<Segment> {
    if Flushes(e, op) then FlushSegments(AtFlush(e, op)) else []
  }

  /** The port after an operation. */
  function PortAfter(p: Port, e: Endpoint, op: Op): Port {
    if Flushes(e, op) then p.(out := Packing.Deliver(p.pack, e.cfg.mtu, p.out, HandedOut(e, op))) else p
  }

  /** An operation of endpoint A. */
  function StepA(n: Net, op: Op): Net
    requires n.w.a.cfg.mss > 0
  {
    var e := n.w.a;
    var w := n.w.(a := Do(e, op), fromA := n.w.fromA + Network.AsSet(HandedOut(e, op)));
    Net(match op
        case Write(msg) => if Send(e, msg).1.Ok? then w.(sentA := w.sentA + [msg]) else w
        case Read(capacity) =>
          var r := Recv(e, capacity).1;
          if r.Ok? then w.(gotA := w.gotA + [r.value]) else w
        case _ => w,
        PortAfter(n.a, e, op), n.b)
  }

  /** The network delivers only datagrams that were written. */
  predicate PossibleA(n: Net, op: Op) {
    n.w.a.cfg.mss > 0 && (op.Arrive? ==> op.bytes in n.b.out.written)
  }

  datatype Step = Step(atA: bool, op: Op)

  predicate Possible(n: Net, s: Step) {
    PossibleA(Facing(n, s.atA), s.op)
  }

  function Next(n: Net, s: Step): Net
    requires Possible(n, s)
  {
    Facing(StepA(Facing(n, s.atA), s.op), s.atA)
  }

  predicate IsRun(n: Net, steps: seq<Step>)
    decreases |steps|
  {
    steps == [] || (Possible(n, steps[0]) && IsRun(Next(n, steps[0]), steps[1..]))
  }

  function After(n: Net, steps: seq<Step>): Net
    requires IsRun(n, steps)
    decreases |steps|
  {
    if steps == [] then n else After(Next(n, steps[0]), steps[1..])
  }

  /** Two endpoints of one connection before anything was sent or written. */
  ghost predicate Initial(n: Net) {
    Network.Initial(n.w) && n.a.out == Out([], []) && n.b.out == Out([], [])
  }

  // ---------- What a sender has to avoid

  /** A payload that cannot be taken for a segment when it is not read: by itself, when segments travel alone; else
      whatever follows it in its datagram. */
  predicate Harmless(conv: u32, data: seq<byte>, alone: bool) {
    data == [] || (if alone then Stops(conv, data) else (data + Le32(conv))[..4] != Le32(conv))
  }

  /** A message none of whose fragments can be taken for a segment. The sender can see this before `send`. */
  predicate HarmlessMessage(conv: u32, mss: nat, msg: seq<byte>, alone: bool)
    requires mss > 0
  {
    forall i :: 0 <= i < |Fragment(mss, msg)| ==> Harmless(conv, Fragment(mss, msg)[i].data, alone)
  }

  /** When segments travel alone it is enough that no fragment of 24 bytes or more begins with the connection's
      number. */
  lemma NumberIsEnough(conv: u32, mss: nat, msg: seq<byte>)
    requires mss > 0
    requires forall i :: 0 <= i < |Fragment(mss, msg)| && |Fragment(mss, msg)[i].data| >= OVERHEAD ==>
               ReadLe32(Fragment(mss, msg)[i].data) != conv
    ensures HarmlessMessage(conv, mss, msg, true)
  {
    hide Fragment, HeaderError;
    forall i | 0 <= i < |Fragment(mss, msg)| ensures Harmless(conv, Fragment(mss, msg)[i].data, true) {
      var data := Fragment(mss, msg)[i].data;
      if |data| >= OVERHEAD {
        WrongNumber(conv, data);
      }
    }
  }

  /** What one side sends can be read: no number or size outgrows its field, and no fragment can be taken for a
      segment. */
  ghost predicate LegibleFrom(e: Endpoint, sent: seq<seq<byte>>, alone: bool) {
    && 0 < e.cfg.mss < U32_LIMIT && e.rcv.wnd < 0x1_0000
    && |Stream(e.cfg.mss, sent)| < U32_LIMIT
    && (forall msg :: msg in sent ==> HarmlessMessage(e.cfg.conv, e.cfg.mss, msg, alone))
  }

  ghost predicate Legible(w: Network.World, alone: bool) {
    LegibleFrom(w.a, w.sentA, alone) && LegibleFrom(w.b, w.sentB, alone)
  }

  lemma {:induction false} StreamIsHarmless(conv: u32, mss: nat, sent: seq<seq<byte>>, alone: bool, i: nat)
    requires mss > 0 && (forall msg :: msg in sent ==> HarmlessMessage(conv, mss, msg, alone))
    requires i < |Stream(mss, sent)|
    ensures Harmless(conv, Stream(mss, sent)[i].data, alone)
    decreases |sent|
  {
    hide Harmless, Fragment;
    var f := Fragment(mss, sent[0]);
    assert HarmlessMessage(conv, mss, sent[0], alone);
    if i >= |f| {
      StreamIsHarmless(conv, mss, sent[1..], alone, i - |f|);
    }
  }

  lemma StreamOfPrefix(mss: nat, early: seq<seq<byte>>, late: seq<seq<byte>>)
    requires mss > 0 && early <= late
    ensures |Stream(mss, early)| <= |Stream(mss, late)|
  {
    StreamAppend(mss, early, late[|early|..]);
    assert late == early + late[|early|..];
  }

  // ---------- What travels

  /** `d` holds segments of `from`, at most one if they travel alone. */
  ghost predicate Carries(gs: seq<Segment>, d: seq<byte>, from: set<Segment>, alone: bool) {
    d == EncodeAll(gs) && (forall g :: g in gs ==> g in from) && (alone ==> |gs| <= 1)
  }

  ghost predicate Carried(d: seq<byte>, from: set<Segment>, alone: bool) {
    exists gs :: Carries(gs, d, from, alone)
  }

  /** All that the port holds or has written are segments handed to it; if they travel alone, each of them has been
      written by itself. */
  ghost predicate PortOk(p: Port, e: Endpoint, from: set<Segment>, alone: bool) {
    && (forall d :: d in p.out.written ==> Carried(d, from, alone))
    && Carried(p.out.buffer, from, alone)
    && (alone ==>
          && p.out.buffer == [] && OneEach(p.pack, e.cfg.mtu, e.cfg.mss)
          && forall g :: g in from ==> Encode(g) in p.out.written)
  }

  /** Control segments carry numbers that the other side has given out, or zero. */
  ghost predicate ControlNumbers(from: set<Segment>, peer: nat) {
    forall p :: p in from && p.cmd != CMD_PUSH && p.sn != 0 ==> p.sn < peer
  }

  ghost predicate ByteInv(n: Net, alone: bool) {
    && AllClean(n.w)
    && ControlNumbers(n.w.fromA, n.w.b.snd.nxt) && ControlNumbers(n.w.fromB, n.w.a.snd.nxt)
    && PortOk(n.a, n.w.a, n.w.fromA, alone) && PortOk(n.b, n.w.b, n.w.fromB, alone)
  }

  lemma FlipKeepsByteInv(n: Net, alone: bool)
    ensures ByteInv(Flip(n), alone) <==> ByteInv(n, alone)
    ensures Legible(Flip(n).w, alone) <==> Legible(n.w, alone)
  {
    hide AllClean, PortOk, LegibleFrom;
    FlipKeepsClean(n.w);
  }

  // ---------- Packing keeps it

  lemma NothingCarried(from: set<Segment>, alone: bool)
    ensures Carried([], from, alone)
  {
    assert Carries([], [], from, alone);
  }

  lemma OneCarried(g: Segment, from: set<Segment>, alone: bool)
    requires g in from
    ensures Carried(Encode(g), from, alone)
  {
    assert EncodeAll([g]) == Encode(g) + EncodeAll([]) == Encode(g);
    assert Carries([g], Encode(g), from, alone);
  }

  lemma CarriedByMore(d: seq<byte>, from: set<Segment>, more: set<Segment>, alone: bool)
    requires Carried(d, from, alone) && from <= more
    ensures Carried(d, more, alone)
  {
    var gs :| Carries(gs, d, from, alone);
    assert Carries(gs, d, more, alone);
  }

  ghost predicate OutOk(o: Out, from: set<Segment>) {
    (forall d :: d in o.written ==> Carried(d, from, false)) && Carried(o.buffer, from, false)
  }

  lemma WrittenOk(o: Out, from: set<Segment>)
    requires OutOk(o, from)
    ensures OutOk(Written(o), from)
  {
    hide Carried;
    NothingCarried(from, false);
  }

  lemma PutOk(k: Packer, mtu: nat, o: Out, g: Segment, from: set<Segment>)
    requires OutOk(o, from) && g in from
    ensures OutOk(Put(k, mtu, o, g), from)
  {
    hide Encode;
    WrittenOk(o, from);
    var p := if k.full(o, OVERHEAD + |g.data|, mtu) then Written(o) else o;
    var gs :| Carries(gs, p.buffer, from, false);
    EncodeAllSnoc(gs, g);
    assert Carries(gs + [g], p.buffer + Encode(g), from, false);
  }

  lemma {:induction false} PutAllOk(k: Packer, mtu: nat, o: Out, segs: seq<Segment>, from: set<Segment>)
    requires OutOk(o, from) && forall g :: g in segs ==> g in from
    ensures OutOk(PutAll(k, mtu, o, segs), from)
    decreases |segs|
  {
    hide Put, OutOk;
    if segs != [] {
      PutOk(k, mtu, o, segs[0], from);
      PutAllOk(k, mtu, Put(k, mtu, o, segs[0]), segs[1..], from);
    }
  }

  lemma SinglesMembers(segs: seq<Segment>, d: seq<byte>)
    ensures d in Singles(segs) <==> exists g :: g in segs && d == Encode(g)
  {
    hide Encode;
    if d in Singles(segs) {
      var i :| 0 <= i < |segs| && Singles(segs)[i] == d;
      assert segs[i] in segs;
    }
    if g :| g in segs && d == Encode(g) {
      var i :| 0 <= i < |segs| && segs[i] == g;
      assert Singles(segs)[i] == d;
    }
  }

  /** A flush that is written one segment at a time. */
  lemma AloneKeepsPort(p: Port, e: Endpoint, from: set<Segment>, segs: seq<Segment>)
    requires PortOk(p, e, from, true) && AllSmall(segs, e.cfg.mss)
    ensures var o := Packing.Deliver(p.pack, e.cfg.mtu, p.out, segs);
            && PortOk(p.(out := o), e, from + Network.AsSet(segs), true)
            && o == Out([], p.out.written + [[]] + Singles(segs))
  {
    hide Carried, OneEach, Encode, Singles;
    var more := from + Network.AsSet(segs);
    OneSegmentPerDatagram(p.pack, e.cfg.mtu, e.cfg.mss, p.out, segs);
    NothingCarried(more, true);
    var written := p.out.written + [[]] + Singles(segs);
    forall d | d in written ensures Carried(d, more, true) {
      if d in p.out.written {
        CarriedByMore(d, from, more, true);
      } else if d in Singles(segs) {
        SinglesMembers(segs, d);
        var g :| g in segs && d == Encode(g);
        OneCarried(g, more, true);
      }
    }
    forall g | g in more ensures Encode(g) in written {
      if g in segs {
        SinglesMembers(segs, Encode(g));
      }
    }
  }

  lemma FlushKeepsPort(p: Port, e: Endpoint, from: set<Segment>, segs: seq<Segment>, alone: bool)
    requires PortOk(p, e, from, alone) && AllSmall(segs, e.cfg.mss)
    ensures PortOk(p.(out := Packing.Deliver(p.pack, e.cfg.mtu, p.out, segs)), e, from + Network.AsSet(segs), alone)
  {
    hide PutAll, Encode, Carried, AllSmall;
    if alone {
      AloneKeepsPort(p, e, from, segs);
    } else {
      var more := from + Network.AsSet(segs);
      forall d | d in p.out.written || d == p.out.buffer ensures Carried(d, more, false) {
        CarriedByMore(d, from, more, false);
      }
      PutAllOk(p.pack, e.cfg.mtu, p.out, segs, more);
      WrittenOk(PutAll(p.pack, e.cfg.mtu, p.out, segs), more);
    }
  }

  // ---------- Reading a datagram

  /** No number on its way has outgrown what the two sides have given out. */
  lemma InFlightIsNumbered(n: Net, alone: bool, p: Segment)
    requires ByteInv(n, alone) && p in n.w.fromB
    ensures p.una <= n.w.a.snd.nxt && (p.sn == 0 || p.sn < Max(n.w.a.snd.nxt, n.w.b.snd.nxt))
    ensures n.w.a.cfg.mss > 0 && n.w.a.snd.nxt <= |Stream(n.w.a.cfg.mss, n.w.sentA)|
    ensures n.w.b.cfg.mss > 0 && n.w.b.snd.nxt <= |Stream(n.w.b.cfg.mss, n.w.sentB)|
  {
    hide Valid, PortOk, Clean, WindowLabelled, NothingLost, AllCopied, InOrder, Source;
    GoodParts(Network.FromA(n.w));
    GoodParts(Network.FromB(n.w));
  }

  lemma GoodParts(l: Link)
    requires Good(l)
    ensures l.mss > 0 && l.s.nxt <= |Stream(l.mss, l.sent)| && l.r.nxt <= l.s.nxt
    ensures forall p :: p in l.fwd && p.cmd == CMD_PUSH ==> p.sn < l.s.nxt
    ensures forall p :: p in l.back ==> p.una <= l.r.nxt
  {
  }

  /** Everything on its way to A is accepted there. */
  lemma InFlightIsAcceptable(n: Net, alone: bool, p: Segment)
    requires ByteInv(n, alone) && Legible(n.w, alone) && p in n.w.fromB
    ensures Acceptable(n.w.a, p) && (p.data == [] || Harmless(n.w.a.cfg.conv, p.data, alone))
    ensures n.w.a.cfg.conv == n.w.b.cfg.conv == p.conv
  {
    hide PortOk, ControlNumbers, Harmless, Stream, Valid, Network.Inv, WindowLabelled;
    InFlightIsNumbered(n, alone, p);
    FlipKeepsClean(n.w);
    InFlightIsSmall(Network.Flip(n.w), p);
    if p.cmd == CMD_PUSH {
      PushIsOfStream(n.w, p);
      StreamIsHarmless(n.w.b.cfg.conv, n.w.b.cfg.mss, n.w.sentB, alone, p.sn);
    }
  }

  lemma PushIsOfStream(w: Network.World, p: Segment)
    requires Network.Inv(w) && p in w.fromB && p.cmd == CMD_PUSH
    ensures w.b.cfg.mss > 0 && p.sn < |Stream(w.b.cfg.mss, w.sentB)|
    ensures Stream(w.b.cfg.mss, w.sentB)[p.sn].data == p.data
  {
    assert Genuine(p, w.b.snd.nxt, Stream(w.b.cfg.mss, w.sentB));
  }

  /** A payload that does not begin with the connection's number, not even together with what follows, is refused. */
  lemma HarmlessStops(conv: u32, data: seq<byte>, rest: seq<byte>)
    requires data != [] && Harmless(conv, data, false)
    requires |rest| < 4 ==> rest == []
    requires |rest| >= 4 ==> rest[..4] == Le32(conv)
    ensures Stops(conv, data + rest)
  {
    hide HeaderError;
    var b := data + rest;
    if |b| >= OVERHEAD {
      if |data| < 4 {
        assert b[..4] == (data + rest[..4])[..4];
      } else {
        assert b[..4] == data[..4] == (data + Le32(conv))[..4];
      }
      if ReadLe32(b) == conv {
        Read32IsInjective(b, conv);
      }
      WrongNumber(conv, b);
    }
  }

  lemma Read32IsInjective(b: seq<byte>, x: u32)
    requires |b| >= 4 && ReadLe32(b) == x
    ensures b[..4] == Le32(x)
  {
    WriteUndoesRead(b[..2]);
    WriteUndoesRead(b[2..4]);
    var low: int, high: int := ReadLe16(b), ReadLe16(b[2..]);
    assert ReadLe16(b[..2]) == low && ReadLe16(b[2..4]) == high;
    assert x == low + 0x1_0000 * high;
    LowHalf(low, high);
    assert b[..4] == b[..2] + b[2..4];
  }

  lemma LowHalf(low: u16, high: u16)
    ensures Le16(low + 0x1_0000 * high) == Le16(low) && (low + 0x1_0000 * high) / 0x1_0000 == high
  {
    var x := low + 0x1_0000 * high;
    assert x / 0x100 == low / 0x100 + 0x100 * high;
  }

  lemma EncodingBegins(conv: u32, segs: seq<Segment>)
    requires forall g :: g in segs ==> g.conv == conv
    ensures var b := EncodeAll(segs); if segs == [] then b == [] else |b| >= 4 && b[..4] == Le32(conv)
  {
    if segs != [] {
      var rest := EncodeAll(segs[1..]);
      HeaderLayout(segs[0], rest);
      assert EncodeAll(segs) == Encode(segs[0]) + rest;
      assert segs[0].conv == conv;
    }
  }

  lemma {:induction false} HarmlessIsUnmistakable(conv: u32, segs: seq<Segment>)
    requires forall g :: g in segs ==> g.conv == conv && (g.data == [] || Harmless(conv, g.data, false))
    ensures Unmistakable(conv, segs)
    decreases |segs|
  {
    hide Harmless, Stops;
    if segs != [] {
      var g := segs[0];
      assert g in segs;
      EncodingBegins(conv, segs[1..]);
      if g.data != [] {
        HarmlessStops(conv, g.data, EncodeAll(segs[1..]));
      }
      HarmlessIsUnmistakable(conv, segs[1..]);
    }
  }

  lemma AloneIsUnmistakable(conv: u32, segs: seq<Segment>)
    requires |segs| <= 1 && forall g :: g in segs ==> g.data == [] || Harmless(conv, g.data, true)
    ensures Unmistakable(conv, segs)
  {
    hide Stops;
    if segs != [] {
      var g := segs[0];
      assert g in segs && segs[1..] == [];
      assert g.data + EncodeAll([]) == g.data;
      assert Unmistakable(conv, []);
    }
  }

  /** A datagram that arrives is a list of segments on their way, and `input` handles them from the front. */
  lemma ArrivalOfDatagram(n: Net, alone: bool, d: seq<byte>) returns (segs: seq<Segment>, whole: bool)
    requires ByteInv(n, alone) && Legible(n.w, alone) && d in n.b.out.written
    ensures (forall g :: g in segs ==> g in n.w.fromB) && (alone ==> |segs| <= 1)
    ensures n.w.a.cfg.mss > 0 && Input(n.w.a, d).0 == TakeIn(n.w.a, segs, whole)
  {
    hide AllClean, ControlNumbers, Harmless, Unmistakable, Acceptable, TakeIn, Input, Encode;
    assert Carried(d, n.w.fromB, alone);
    var gs :| Carries(gs, d, n.w.fromB, alone);
    forall g | g in gs
      ensures Acceptable(n.w.a, g) && g.conv == n.w.a.cfg.conv
      ensures g.data == [] || Harmless(n.w.a.cfg.conv, g.data, alone)
    {
      InFlightIsAcceptable(n, alone, g);
    }
    if alone {
      AloneIsUnmistakable(n.w.a.cfg.conv, gs);
    } else {
      HarmlessIsUnmistakable(n.w.a.cfg.conv, gs);
    }
    var k;
    k, whole := ArrivalIsPrefix(n.w.a, gs);
    segs := gs[..k];
  }

  // ---------- Each step is a step of the segment-level network

  function EventOf(op: Op): Network.Event
    requires !op.Arrive?
  {
    match op
    case Write(msg) => Network.Write(msg)
    case Read(capacity) => Network.Read(capacity)
    case Elapse(now) => Network.Elapse(now)
    case Push => Network.Push
  }

  lemma PlainStep(n: Net, op: Op)
    requires PossibleA(n, op) && !op.Arrive?
    ensures StepA(n, op).w == Network.StepA(n.w, EventOf(op))
  {
    hide Flush, FlushSegments, Send, Recv;
    assert Network.AsSet([]) == {} && n.w.fromA + {} == n.w.fromA;
    if op.Push? && !n.w.a.clk.updated {
      FlushUnstarted(n.w.a);
    }
  }

  lemma ArrivalStep(n: Net, d: seq<byte>)
    requires n.w.a.cfg.mss > 0
    ensures StepA(n, Arrive(d)) == n.(w := n.w.(a := Input(n.w.a, d).0))
  {
    hide Input;
    assert n.w.fromA + Network.AsSet([]) == n.w.fromA;
  }

  lemma StepRefines(n: Net, alone: bool, op: Op) returns (event: Network.Event)
    requires ByteInv(n, alone) && PossibleA(n, op) && Legible(n.w, alone)
    ensures Network.PossibleA(n.w, event) && StepA(n, op).w == Network.StepA(n.w, event)
  {
    hide AllClean, ControlNumbers, PortOk, Legible, Input, TakeIn, StepA;
    if op.Arrive? {
      var segs, whole := ArrivalOfDatagram(n, alone, op.bytes);
      ArrivalStep(n, op.bytes);
      event := Network.Deliver(segs, whole);
    } else {
      PlainStep(n, op);
      event := EventOf(op);
    }
  }

  lemma FlushUnstarted(e: Endpoint)
    requires !e.clk.updated
    ensures Flush(e) == e && FlushSegments(e) == []
  {
  }

  /** What a step leaves alone, whatever arrives. */
  lemma StepFrame(n: Net, op: Op)
    requires PossibleA(n, op)
    ensures var v := StepA(n, op);
            && v.w.a.cfg == n.w.a.cfg && v.w.a.rcv.wnd == n.w.a.rcv.wnd && v.w.b == n.w.b && v.b == n.b
            && v.w.fromB == n.w.fromB && v.w.sentB == n.w.sentB && n.w.sentA <= v.w.sentA
            && v.a.pack == n.a.pack && (!op.Write? ==> v.w.sentA == n.w.sentA)
  {
    hide Do, FlushSegments, Send, Recv;
    DoKeepsSegmentSize(n.w.a, op);
    DoKeepsWindow(n.w.a, op);
  }

  lemma DoKeepsWindow(e: Endpoint, op: Op)
    requires e.cfg.mss > 0
    ensures Do(e, op).rcv.wnd == e.rcv.wnd
  {
    hide InputLoop, Flush, Drain, Span, Join, PeekSize, Fragment, TakeFastack;
    match op
    case Read(capacity) =>
      if RecvError(e.rcv.queue, capacity).None? {
        DrainKeepsWindow(e.rcv.(queue := e.rcv.queue[Span(Pieces(e.rcv.queue))..]));
      }
    case Arrive(b) => LoopKeepsWindow(Scan(e, false, 0), b);
    case Elapse(now) => FlushKeepsReceiver(Tick(e, now).0);
    case Push => FlushKeepsReceiver(e);
    case Write(msg) =>
  }

  lemma FlushKeepsReceiver(e: Endpoint)
    ensures Flush(e).rcv == e.rcv
  {
  }

  lemma HandleKeepsWindow(s: Scan, g: Segment)
    ensures Handle(s, g).e.rcv.wnd == s.e.rcv.wnd
  {
    hide TakeUna, TakeAck, Drain;
    DrainKeepsWindow(s.e.rcv.(buf := Insert(s.e.rcv.buf, OnWire(g))));
  }

  lemma {:induction false} LoopKeepsWindow(s: Scan, b: seq<byte>)
    ensures InputLoop(s, b).0.e.rcv.wnd == s.e.rcv.wnd
    decreases |b|
  {
    hide Handle, InputLoop;
    InputLoopUnfold(s, b);
    if |b| >= OVERHEAD && HeaderError(s.e.cfg.conv, b).None? {
      HandleKeepsWindow(s, SegmentAt(s.e, b));
      LoopKeepsWindow(Handle(s, SegmentAt(s.e, b)), b[NextHeader(s.e, b)..]);
    }
  }

  lemma StepKeepsPort(n: Net, alone: bool, op: Op)
    requires ByteInv(n, alone) && PossibleA(n, op)
    ensures PortOk(StepA(n, op).a, StepA(n, op).w.a, StepA(n, op).w.fromA, alone)
  {
    hide AllClean, ControlNumbers, Do, Flushes, FlushSegments, Carried, Encode;
    StepFrame(n, op);
    if Flushes(n.w.a, op) {
      HandedOutIsSmall(n, alone, op);
      FlushKeepsPort(n.a, n.w.a, n.w.fromA, HandedOut(n.w.a, op), alone);
    } else {
      assert n.w.fromA + Network.AsSet([]) == n.w.fromA;
    }
  }

  lemma HandedOutIsSmall(n: Net, alone: bool, op: Op)
    requires ByteInv(n, alone) && Flushes(n.w.a, op)
    ensures AllSmall(HandedOut(n.w.a, op), n.w.a.cfg.mss)
  {
    hide ControlNumbers, PortOk, Network.Inv, WindowLabelled, FlushSegments, AllSmall;
    if op.Elapse? {
      Network.TickKeeps(n.w, op.now);
      TickKeepsLabels(n.w.a, op.now);
      FlushesSmall(n.w.(a := Tick(n.w.a, op.now).0));
    } else {
      FlushesSmall(n.w);
    }
  }

  lemma OwedIsKnown(n: Net, alone: bool, k: Ack)
    requires ByteInv(n, alone) && k in n.w.a.acks
    ensures k.sn < n.w.b.snd.nxt
  {
    hide PortOk, ControlNumbers, Valid, Clean, WindowLabelled, Source, NothingLost, AllCopied, InOrder;
    var l := Network.FromB(n.w);
    assert Received(l.r, k.sn);
    if k.sn >= l.r.nxt {
      var g :| g in l.r.buf && g.sn == k.sn;
      assert Genuine(g, l.s.nxt, Stream(l.mss, l.sent));
    }
  }

  lemma HandedOutIsNumbered(n: Net, alone: bool, op: Op, x: Segment)
    requires ByteInv(n, alone) && Flushes(n.w.a, op) && x in HandedOut(n.w.a, op) && x.cmd != CMD_PUSH && x.sn != 0
    ensures x.sn < n.w.b.snd.nxt
  {
    hide ByteInv, ControlSegments, Network.Inv, Valid, Admitted;
    var a := AtFlush(n.w.a, op);
    InvIsValid(n, alone);
    AtFlushKeeps(n.w.a, op);
    if x !in ControlSegments(a) {
      DataIsPush(a, x);
    }
    Network.ControlSegmentsMeaning(a, x);
    var k :| k in a.acks && k.sn == x.sn;
    OwedIsKnown(n, alone, k);
  }

  lemma InvIsValid(n: Net, alone: bool)
    requires ByteInv(n, alone)
    ensures Valid(n.w.a) && Valid(n.w.b)
  {
  }

  lemma StepKeepsNumbers(n: Net, alone: bool, op: Op)
    requires ByteInv(n, alone) && PossibleA(n, op)
    ensures var w := StepA(n, op).w;
            ControlNumbers(w.fromA, w.b.snd.nxt) && ControlNumbers(w.fromB, w.a.snd.nxt)
  {
    hide AllClean, PortOk, Do, Flushes, FlushSegments;
    InvIsValid(n, alone);
    DoKeepsValid(n.w.a, op);
    StepFrame(n, op);
    var w := StepA(n, op).w;
    forall p | p in w.fromA && p.cmd != CMD_PUSH && p.sn != 0 ensures p.sn < w.b.snd.nxt {
      if p !in n.w.fromA {
        HandedOutIsNumbered(n, alone, op, p);
      }
    }
  }

  lemma StepKeepsByteInv(n: Net, alone: bool, op: Op)
    requires ByteInv(n, alone) && PossibleA(n, op) && Legible(n.w, alone)
    ensures ByteInv(StepA(n, op), alone)
  {
    hide AllClean, PortOk, ControlNumbers, StepA, Network.StepA, Legible;
    var event := StepRefines(n, alone, op);
    StepKeepsClean(n.w, event);
    StepKeepsPort(n, alone, op);
    StepKeepsNumbers(n, alone, op);
    StepFrame(n, op);
  }

  // ---------- Runs

  lemma NextKeepsByteInv(n: Net, alone: bool, s: Step)
    requires ByteInv(n, alone) && Possible(n, s) && Legible(n.w, alone)
    ensures ByteInv(Next(n, s), alone)
  {
    hide ByteInv, StepA, Legible;
    FlipKeepsByteInv(n, alone);
    StepKeepsByteInv(Facing(n, s.atA), alone, s.op);
    FlipKeepsByteInv(StepA(Facing(n, s.atA), s.op), alone);
  }

  lemma NextRefines(n: Net, alone: bool, s: Step) returns (m: Network.Move)
    requires ByteInv(n, alone) && Possible(n, s) && Legible(n.w, alone)
    ensures Network.Possible(n.w, m) && Network.Next(n.w, m) == Next(n, s).w
  {
    hide ByteInv, StepA, Network.StepA, Legible;
    FlipKeepsByteInv(n, alone);
    var event := StepRefines(Facing(n, s.atA), alone, s.op);
    m := Network.Move(s.atA, event);
  }

  /** The task of a run: settings and window sizes stay, and messages are only added. */
  ghost predicate SameTask(n: Net, v: Net) {
    && v.w.a.cfg == n.w.a.cfg && v.w.b.cfg == n.w.b.cfg
    && v.w.a.rcv.wnd == n.w.a.rcv.wnd && v.w.b.rcv.wnd == n.w.b.rcv.wnd
    && n.w.sentA <= v.w.sentA && n.w.sentB <= v.w.sentB
    && v.a.pack == n.a.pack && v.b.pack == n.b.pack
  }

  lemma NextKeepsTask(n: Net, s: Step)
    requires Possible(n, s)
    ensures SameTask(n, Next(n, s))
  {
    hide StepA;
    StepFrame(Facing(n, s.atA), s.op);
  }

  lemma {:induction false} RunKeepsTask(n: Net, steps: seq<Step>)
    requires IsRun(n, steps)
    ensures SameTask(n, After(n, steps))
    decreases |steps|
  {
    hide Next;
    if steps != [] {
      NextKeepsTask(n, steps[0]);
      RunKeepsTask(Next(n, steps[0]), steps[1..]);
    }
  }

  lemma LegibleBefore(n: Net, v: Net, alone: bool)
    requires SameTask(n, v) && Legible(v.w, alone)
    ensures Legible(n.w, alone)
  {
    hide Stream, HarmlessMessage;
    StreamOfPrefix(n.w.a.cfg.mss, n.w.sentA, v.w.sentA);
    StreamOfPrefix(n.w.b.cfg.mss, n.w.sentB, v.w.sentB);
  }

  /** Refinement: from any state of the invariant, a run on bytes whose messages can be read does exactly what some
      run of the segment-level network does, and keeps the invariant. */
  lemma {:induction false} RunRefines(n: Net, alone: bool, steps: seq<Step>) returns (moves: seq<Network.Move>)
    requires ByteInv(n, alone) && IsRun(n, steps) && Legible(After(n, steps).w, alone)
    ensures Network.IsRun(n.w, moves) && Network.After(n.w, moves) == After(n, steps).w
    ensures ByteInv(After(n, steps), alone)
    decreases |steps|
  {
    hide ByteInv, Legible, Next, Network.Next;
    if steps == [] {
      moves := [];
    } else {
      var v := Next(n, steps[0]);
      RunKeepsTask(n, steps);
      LegibleBefore(n, After(n, steps), alone);
      var m := NextRefines(n, alone, steps[0]);
      NextKeepsByteInv(n, alone, steps[0]);
      var rest := RunRefines(v, alone, steps[1..]);
      moves := [m] + rest;
      assert moves[1..] == rest;
    }
  }

  // ---------- What every run satisfies

  /** Both output buffers write every segment by itself. */
  ghost predicate TravelAlone(n: Net) {
    OneEach(n.a.pack, n.w.a.cfg.mtu, n.w.a.cfg.mss) && OneEach(n.b.pack, n.w.b.cfg.mtu, n.w.b.cfg.mss)
  }

  /** A run whose messages can be read: either no fragment can be taken for a segment whatever follows it, or none can
      by itself and segments travel alone. */
  ghost predicate LegibleRun(n: Net, alone: bool, steps: seq<Step>) {
    && Initial(n) && IsRun(n, steps) && Legible(After(n, steps).w, alone)
    && (alone ==> TravelAlone(n))
  }

  lemma InitialIsByteInv(n: Net, alone: bool)
    requires Initial(n)
    requires alone ==> TravelAlone(n)
    ensures ByteInv(n, alone)
  {
    hide Valid, OneEach, Network.Inv;
    Network.InitialIsInv(n.w);
    NothingCarried({}, alone);
  }

  /** The bytes do what the segments do. */
  lemma BytesRefineSegments(n: Net, alone: bool, steps: seq<Step>) returns (moves: seq<Network.Move>)
    requires LegibleRun(n, alone, steps)
    ensures Network.Initial(n.w) && Network.IsRun(n.w, moves) && Network.After(n.w, moves) == After(n, steps).w
    ensures ByteInv(After(n, steps), alone)
  {
    hide Network.Initial, ByteInv, IsRun, Legible, TravelAlone;
    InitialIsByteInv(n, alone);
    moves := RunRefines(n, alone, steps);
  }

  /** End-to-end safety: in every run on bytes, whatever is lost, repeated, delayed or reordered, the messages an
      application has been given are a prefix of the messages the other one had accepted: in order, once each, byte
      for byte. */
  lemma EndToEndSafety(n: Net, alone: bool, steps: seq<Step>)
    requires LegibleRun(n, alone, steps)
    ensures After(n, steps).w.gotB <= After(n, steps).w.sentA
    ensures After(n, steps).w.gotA <= After(n, steps).w.sentB
  {
    hide ByteInv, Network.Initial, Network.IsRun, IsRun, Legible;
    var moves := BytesRefineSegments(n, alone, steps);
    Network.EndToEndSafety(n.w, moves);
  }

  /** The state a run reaches, seen from either end. */
  function Seen(n: Net, steps: seq<Step>, atA: bool): Network.World
    requires IsRun(n, steps)
  {
    Facing(After(n, steps), atA).w
  }

  /** Nothing is lost: each number given out is still in the send window or has been received; and the windows stay
      coupled: what is expected next has at most been given out, and what is acknowledged lies within the receive
      window, or below its start unless the queue is full. */
  lemma NothingIsLost(n: Net, alone: bool, steps: seq<Step>, atA: bool)
    requires LegibleRun(n, alone, steps)
    ensures var v := Seen(n, steps, atA);
            && (forall sn: nat :: sn < v.a.snd.nxt ==> HasSn(v.a.snd.buf, sn) || Received(v.b.rcv, sn))
            && v.b.rcv.nxt <= v.a.snd.nxt
            && v.a.snd.una <= v.b.rcv.nxt + v.b.rcv.wnd
            && (|v.b.rcv.queue| < v.b.rcv.wnd ==> v.a.snd.una <= v.b.rcv.nxt)
  {
    hide ByteInv, Network.Initial, Network.IsRun, IsRun, Legible, HasSn, Received;
    var moves := BytesRefineSegments(n, alone, steps);
    var v := Seen(n, steps, atA);
    assert v == Network.Seen(n.w, moves, atA);
    Network.WindowCoupling(n.w, moves, atA);
    forall sn: nat | sn < v.a.snd.nxt ensures HasSn(v.a.snd.buf, sn) || Received(v.b.rcv, sn) {
      Network.NoSegmentIsLost(n.w, moves, atA, sn);
    }
  }

  /** The answer to reading, whatever the buffer: end of file exactly when nothing is queued; unexpected end exactly
      when some but not all fragments of the next message are; a short buffer exactly when all are but the message is
      longer; and otherwise that message. */
  lemma HeadOfLine(n: Net, alone: bool, steps: seq<Step>, atA: bool, capacity: nat)
    requires LegibleRun(n, alone, steps)
    ensures var v := Seen(n, steps, atA); var q, r := v.b.rcv.queue, Recv(v.b, capacity).1;
            && v.a.cfg.mss > 0
            && (r == Err(EndOfFile) <==> q == [])
            && (|v.gotB| >= |v.sentA| ==> q == [])
            && (|v.gotB| < |v.sentA| ==>
                  var msg := v.sentA[|v.gotB|];
                  var count := Count(v.a.cfg.mss, |msg|);
                  && count > 0
                  && (r == Err(UnexpectedEof) <==> 0 < |q| < count)
                  && (r == Err(InvalidInput) <==> |q| >= count && capacity < |msg|)
                  && (r == Ok(msg) <==> |q| >= count && capacity >= |msg|)
                  && (r.Ok? ==> r == Ok(msg)))
  {
    hide ByteInv, Network.Initial, Network.IsRun, IsRun, Legible, Recv, Count;
    var moves := BytesRefineSegments(n, alone, steps);
    assert Seen(n, steps, atA) == Network.Seen(n.w, moves, atA);
    Network.HeadOfLine(n.w, moves, atA, capacity);
  }

  /** When the queue is full reading succeeds, with a large enough buffer, exactly when the next message has no more
      fragments than the receive window; otherwise no arrival moves the window any more. */
  lemma FullQueue(n: Net, alone: bool, steps: seq<Step>, atA: bool, capacity: nat, g: Segment)
    requires LegibleRun(n, alone, steps)
    requires var v := Seen(n, steps, atA);
             |v.gotB| < |v.sentA| && |v.b.rcv.queue| == v.b.rcv.wnd && capacity >= |v.sentA[|v.gotB|]|
    ensures var v := Seen(n, steps, atA);
            && v.a.cfg.mss > 0
            && (Recv(v.b, capacity).1.Ok? <==> Count(v.a.cfg.mss, |v.sentA[|v.gotB|]|) <= v.b.rcv.wnd)
            && TakeData(v.b.rcv, g).nxt == v.b.rcv.nxt && TakeData(v.b.rcv, g).queue == v.b.rcv.queue
  {
    hide ByteInv, Network.Initial, Network.IsRun, IsRun, Legible, Recv, Count, TakeData;
    var moves := BytesRefineSegments(n, alone, steps);
    assert Seen(n, steps, atA) == Network.Seen(n.w, moves, atA);
    Network.FullQueue(n.w, moves, atA, capacity, g);
  }
}
