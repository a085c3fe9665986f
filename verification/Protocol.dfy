/** One endpoint of a connection as a value, and what each operation of the control block does to it. The class
    `ControlBlock.Kcb` carries out these operations in place; the network model composes them. */
module Protocol {
  import opened Machine
  import opened Wire
  import opened Message
  import opened SendWindow
  import opened ReceiveWindow
  import opened RttEstimator
  import opened CongestionWindow
  import opened Retransmission
  import opened WindowProbe
  import opened Timer

  const WND_SND := 32
  const WND_RCV := 32
  const MTU_DEF := 1_400

  datatype Config = Config(conv: u32, mtu: nat, mss: nat, sndWnd: nat, interval: u32, nodelay: nat, minRto: u32,
                           fastresend: nat, nocwnd: bool)

  /** An acknowledgement owed to the peer: the number of a segment and the time it carried. */
  datatype Ack = Ack(sn: nat, ts: u32)

  datatype Endpoint = Endpoint(cfg: Config, snd: Sender, rcv: Receiver, acks: seq<Ack>, rtt: Rtt, cc: Congestion,
                               rmtWnd: nat, probe: Prober, clk: Clock, xmit: nat)

  ghost predicate Valid(e: Endpoint) {
    && e.cfg.mss > 0 && 0 < e.cfg.interval <= 5000
    && SndOk(e.snd) && RcvOk(e.rcv) && CcOk(e.cc, e.cfg.mss) && ProbeOk(e.probe)
    && !e.probe.askSend
    && AllPushed(e.snd.buf)
  }

  /** An endpoint as it is created. */
  function Fresh(conv: u32): Endpoint {
    Endpoint(
      Config(conv, MTU_DEF, MTU_DEF - OVERHEAD, WND_SND, INTERVAL_DEF, 0, RTO_MIN, 0, false),
      Sender(0, 0, [], []), Receiver(0, WND_RCV, [], []), [], Rtt(0, 0, RTO_DEF),
      Congestion(0, 0, THRESH_INIT), WND_RCV, Prober(0, 0, false, false), Clock(0, INTERVAL_DEF, false), 0)
  }

  // ---------- Sending and receiving messages

  /** `q` continues with default segments that carry the given pieces. */
  function Wrap(p: Piece): Segment {
    BLANK.(frg := p.frg % 0x100, data := p.data)
  }

  function WrapAll(ps: seq<Piece>): (r: seq<Segment>)
    ensures |r| == |ps|
  {
    seq(|ps|, i requires 0 <= i < |ps| => Wrap(ps[i]))
  }

  function Send(e: Endpoint, msg: seq<byte>): (Endpoint, Result<nat>)
    requires e.cfg.mss > 0
  {
    if !Sendable(e.cfg.mss, msg) then (e, Err(InvalidInput))
    else (e.(snd := e.snd.(queue := e.snd.queue + WrapAll(Fragment(e.cfg.mss, msg)))), Ok(|msg|))
  }

  /** Why `recv` with room for `capacity` bytes cannot return a message, if it cannot. */
  function RecvError(q: seq<Segment>, capacity: nat): Option<Error> {
    if q == [] then Some(EndOfFile)
    else match PeekSize(Pieces(q))
      case None => Some(UnexpectedEof)
      case Some(size) => if size > capacity then Some(InvalidInput) else None
  }

  /** The message at the front of the queue. */
  function NextMessage(q: seq<Segment>): seq<byte> {
    Join(Pieces(q)[..Span(Pieces(q))])
  }

  function Recv(e: Endpoint, capacity: nat): (Endpoint, Result<seq<byte>>) {
    match RecvError(e.rcv.queue, capacity)
    case Some(error) => (e, Err(error))
    case None =>
      var rcv := Take(e.rcv, Span(Pieces(e.rcv.queue)));
      var tell := |e.rcv.queue| >= e.rcv.wnd && |rcv.queue| < rcv.wnd;
      (e.(rcv := rcv, probe := e.probe.(askTell := e.probe.askTell || tell)), Ok(NextMessage(e.rcv.queue)))
  }

  // ---------- Input

  /** The state of `input` between two segments of a datagram: the largest number acknowledged so far, if any. */
  datatype Scan = Scan(e: Endpoint, acked: bool, maxAck: nat)

  function TakeTiming(e: Endpoint, ts: u32): Endpoint {
    var rtt := TimeDiff(e.clk.current, ts);
    if rtt >= 0 then e.(rtt := TakeSample(e.rtt, rtt, e.cfg.interval, e.cfg.minRto)) else e
  }

  function TakePush(e: Endpoint, g: Segment): Endpoint {
    if g.sn < e.rcv.nxt + e.rcv.wnd then
      e.(acks := e.acks + [Ack(g.sn, g.ts)], rcv := TakeData(e.rcv, OnWire(g)))
    else e
  }

  /** What every segment carries: the peer's window and its cumulative acknowledgement. */
  function TakeHeader(e: Endpoint, g: Segment): Endpoint {
    e.(rmtWnd := g.wnd, snd := TakeUna(e.snd, g.una))
  }

  /** What an acknowledgement adds: a timing sample and the acknowledged number. */
  function TakeAckCommand(e: Endpoint, g: Segment): Endpoint {
    TakeTiming(e, g.ts).(snd := TakeAck(e.snd, g.sn))
  }

  /** What the command of a segment asks for. */
  function Command(s: Scan, g: Segment): Scan {
    if g.cmd == CMD_ACK then
      Scan(TakeAckCommand(s.e, g), true, if !s.acked || g.sn > s.maxAck then g.sn else s.maxAck)
    else if g.cmd == CMD_PUSH then s.(e := TakePush(s.e, g))
    else if g.cmd == CMD_WASK then s.(e := s.e.(probe := s.e.probe.(askTell := true)))
    else s
  }

  /** One segment of known command. */
  function Handle(s: Scan, g: Segment): Scan {
    Command(s.(e := TakeHeader(s.e, g)), g)
  }

  function HandleAll(s: Scan, segs: seq<Segment>): (r: Scan)
    ensures r.e.cfg == s.e.cfg
    decreases |segs|
  {
    if segs == [] then s else HandleAll(Handle(s, segs[0]), segs[1..])
  }

  /** After the last segment: fast acknowledgement, then congestion control. */
  function Conclude(s: Scan, oldUna: nat): Endpoint
    requires s.e.cfg.mss > 0
  {
    var snd := if s.acked then TakeFastack(s.e.snd, s.maxAck) else s.e.snd;
    s.e.(snd := snd, cc := if snd.una > oldUna then OnAdvance(s.e.cc, s.e.rmtWnd, s.e.cfg.mss) else s.e.cc)
  }

  /** `input` on a list of segments. */
  function InputSegments(e: Endpoint, segs: seq<Segment>): Endpoint
    requires e.cfg.mss > 0
  {
    Conclude(HandleAll(Scan(e, false, 0), segs), e.snd.una)
  }

  /** `input` on segments: the whole of it, or, when it stops with an error, without what follows the last one. */
  function TakeIn(e: Endpoint, segs: seq<Segment>, whole: bool): Endpoint
    requires e.cfg.mss > 0
  {
    if whole then InputSegments(e, segs) else HandleAll(Scan(e, false, 0), segs).e
  }

  /** Only a push inside the window has its payload read from the datagram. */
  predicate ReadsPayload(e: Endpoint, h: Header) {
    h.cmd == CMD_PUSH && InWindow(e.rcv, h.sn)
  }

  /** Why the loop of `input` on connection `conv` stops at the header in front of `b`, if it does. */
  function HeaderError(conv: u32, b: seq<byte>): Option<Error>
    requires |b| >= OVERHEAD
  {
    var h := DecodeHeader(b);
    if h.conv != conv then Some(InvalidData)
    else if |b| - OVERHEAD < h.len then Some(UnexpectedEof)
    else if !KnownCommand(h.cmd) then Some(InvalidData)
    else None
  }

  /** The segment in front of `b`. */
  function SegmentAt(e: Endpoint, b: seq<byte>): Segment
    requires |b| >= OVERHEAD && HeaderError(e.cfg.conv, b).None?
  {
    var h := DecodeHeader(b);
    Arrived(h, b[OVERHEAD..OVERHEAD + h.len])
  }

  /** Where the next header is read: behind the payload only when the payload was. */
  function NextHeader(e: Endpoint, b: seq<byte>): nat
    requires |b| >= OVERHEAD
  {
    var h := DecodeHeader(b);
    if ReadsPayload(e, h) then OVERHEAD + h.len else OVERHEAD
  }

  /** The loop of `input` over the bytes of a datagram: the state when it stops, and the bytes left or the
      error. A payload that is not read stays in front of the next header. */
  function InputLoop(s: Scan, b: seq<byte>): (r: (Scan, Result<seq<byte>>))
    ensures r.0.e.cfg == s.e.cfg
    ensures r.1.Ok? ==> |r.1.value| <= |b| && |r.1.value| < OVERHEAD
    decreases |b|
  {
    if |b| < OVERHEAD then (s, Ok(b))
    else match HeaderError(s.e.cfg.conv, b)
      case Some(error) => (s, Err(error))
      case None => InputLoop(Handle(s, SegmentAt(s.e, b)), b[NextHeader(s.e, b)..])
  }

  lemma InputLoopUnfold(s: Scan, b: seq<byte>)
    ensures InputLoop(s, b) ==
            if |b| < OVERHEAD then (s, Ok(b))
            else match HeaderError(s.e.cfg.conv, b)
              case Some(error) => (s, Err(error))
              case None => InputLoop(Handle(s, SegmentAt(s.e, b)), b[NextHeader(s.e, b)..])
  {
  }

  lemma SegmentAtHeader(e: Endpoint, b: seq<byte>)
    requires |b| >= OVERHEAD && HeaderError(e.cfg.conv, b).None?
    ensures var h := DecodeHeader(b); SegmentAt(e, b) == Arrived(h, b[OVERHEAD..OVERHEAD + h.len])
  {
  }

  function Input(e: Endpoint, b: seq<byte>): (Endpoint, Result<nat>)
    requires e.cfg.mss > 0
  {
    if |b| < OVERHEAD then (e, Err(InvalidData))
    else
      var (s, r) := InputLoop(Scan(e, false, 0), b);
      match r
      case Err(error) => (s.e, Err(error))
      case Ok(left) => (Conclude(s, e.snd.una), Ok(|b| - |left|))
  }

  // ---------- Flush

  function Unused(r: Receiver): nat {
    if |r.queue| < r.wnd then r.wnd - |r.queue| else 0
  }

  /** The header `flush` starts from. */
  function Template(e: Endpoint): Segment {
    BLANK.(conv := e.cfg.conv, cmd := CMD_ACK, wnd := Unused(e.rcv), una := e.rcv.nxt)
  }

  function AckSegment(t: Segment, a: Ack): Segment {
    t.(sn := a.sn, ts := a.ts)
  }

  function AckSegments(t: Segment, acks: seq<Ack>): (r: seq<Segment>)
    ensures |r| == |acks|
  {
    seq(|acks|, i requires 0 <= i < |acks| => AckSegment(t, acks[i]))
  }

  /** A probe repeats the number and time of the last acknowledgement. */
  function AfterAcks(t: Segment, acks: seq<Ack>): Segment {
    if acks == [] then t else AckSegment(t, acks[|acks| - 1])
  }

  function ProbeSegments(t: Segment, p: Prober): seq<Segment> {
    (if p.askSend then [t.(cmd := CMD_WASK)] else []) + (if p.askTell then [t.(cmd := CMD_WINS)] else [])
  }

  /** How many segments may be outstanding. */
  function WindowLimit(e: Endpoint): nat {
    var w := Min(e.cfg.sndWnd, e.rmtWnd);
    if e.cfg.nocwnd then w else Min(e.cc.cwnd, w)
  }

  function StampOf(e: Endpoint): Stamp {
    Stamp(e.cfg.conv, Unused(e.rcv), e.clk.current, e.rcv.nxt, e.rtt.rto)
  }

  function Resent(c: Config): nat {
    if c.fastresend > 0 then c.fastresend else U32_LIMIT - 1
  }

  function PaceOf(e: Endpoint): Pace {
    Pace(e.clk.current, e.rtt.rto, e.cfg.nodelay, Resent(e.cfg), Unused(e.rcv), e.rcv.nxt)
  }

  lemma PaceResent(e: Endpoint)
    ensures PaceOf(e).resent == Resent(e.cfg)
  {
  }

  /** The control segments of a flush: acknowledgements, then probes. */
  function ControlSegments(e: Endpoint): seq<Segment> {
    var t := Template(e);
    AckSegments(t, e.acks) + ProbeSegments(AfterAcks(t, e.acks), ProbeStep(e.probe, e.rmtWnd, e.clk.current))
  }

  function Admitted(e: Endpoint): Sender {
    Admit(e.snd, WindowLimit(e), StampOf(e))
  }

  /** The data segments of a flush. */
  function DataSegments(e: Endpoint): seq<Segment> {
    Transmitted(Admitted(e).buf, PaceOf(e))
  }

  /** Everything a flush hands to the output, segment by segment. */
  function FlushSegments(e: Endpoint): seq<Segment> {
    if !e.clk.updated then [] else ControlSegments(e) + DataSegments(e)
  }

  /** After the control segments: nothing is owed any more. */
  function ControlSent(e: Endpoint): Endpoint {
    e.(acks := [], probe := Cleared(ProbeStep(e.probe, e.rmtWnd, e.clk.current)))
  }

  /** After the data segments: the window is filled and visited, and the congestion window adapted. */
  function DataSent(e: Endpoint): Endpoint {
    var s, p := Admitted(e), PaceOf(e);
    e.(snd := s.(buf := VisitAll(s.buf, p)),
       xmit := e.xmit + Timeouts(s.buf, p),
       cc := OnFlush(e.cc, AnyDue(s.buf, p, Fast), AnyDue(s.buf, p, Timeout), p.resent, Max(0, s.nxt - s.una),
                     WindowLimit(e), e.cfg.mss))
  }

  function Flush(e: Endpoint): Endpoint {
    if !e.clk.updated then e else DataSent(ControlSent(e))
  }

  lemma ControlKeepsWindow(e: Endpoint)
    ensures var e1 := ControlSent(e);
            && DataSegments(e1) == DataSegments(e)
            && e1.snd == e.snd && e1.rcv == e.rcv && e1.cfg == e.cfg && e1.clk == e.clk
  {
  }

  function Tick(e: Endpoint, now: u32): (Endpoint, bool) {
    var (clk, due) := Advance(e.clk, e.cfg.interval, now);
    (e.(clk := clk), due)
  }

  /** `update`: the endpoint afterwards and the segments given to the output. */
  function Update(e: Endpoint, now: u32): (Endpoint, seq<Segment>) {
    var (e1, due) := Tick(e, now);
    if due then (Flush(e1), FlushSegments(e1)) else (e1, [])
  }

  // ---------- What every operation keeps

  lemma ValidParts(e: Endpoint)
    requires Valid(e)
    ensures e.cfg.mss > 0 && 0 < e.cfg.interval <= 5000 && SndOk(e.snd) && e.snd.una <= e.snd.nxt && RcvOk(e.rcv)
  {
  }

  lemma FreshIsValid(conv: u32)
    ensures Valid(Fresh(conv))
  {
  }

  lemma SendKeepsValid(e: Endpoint, msg: seq<byte>)
    requires Valid(e)
    ensures Valid(Send(e, msg).0)
  {
  }

  lemma RecvKeepsValid(e: Endpoint, capacity: nat)
    requires Valid(e)
    ensures Valid(Recv(e, capacity).0)
  {
    if RecvError(e.rcv.queue, capacity).None? {
      TakeMeaning(e.rcv, Span(Pieces(e.rcv.queue)));
    }
  }

  /** Every segment of the window is a push that has been transmitted. */
  ghost predicate AllPushed(buf: seq<Segment>) {
    forall i :: 0 <= i < |buf| ==> buf[i].xmit >= 1 && buf[i].cmd == CMD_PUSH
  }

  lemma AcksKeepPushed(s: Sender, una: nat, sn: nat)
    requires AllPushed(s.buf)
    ensures AllPushed(TakeUna(s, una).buf) && AllPushed(TakeAck(s, sn).buf)
  {
    var a, b := TakeUna(s, una).buf, TakeAck(s, sn).buf;
    FilterMembers(s.buf, (x: Segment) => x.sn >= una);
    FilterMembers(s.buf, (x: Segment) => x.sn != sn);
    forall i | 0 <= i < |a| ensures a[i].xmit >= 1 && a[i].cmd == CMD_PUSH {
      assert a[i] in s.buf;
    }
    forall i | 0 <= i < |b| ensures b[i].xmit >= 1 && b[i].cmd == CMD_PUSH {
      assert b[i] in s.buf;
    }
  }

  lemma AcksKeepValid(e: Endpoint, g: Segment)
    requires Valid(e)
    ensures Valid(TakeHeader(e, g)) && TakeHeader(e, g).snd.una >= e.snd.una
    ensures Valid(TakeAckCommand(e, g)) && TakeAckCommand(e, g).snd.una >= e.snd.una
  {
    AcksKeepSender(e.snd, g.una, g.sn);
    AcksKeepPushed(e.snd, g.una, g.sn);
  }

  lemma PushKeepsValid(e: Endpoint, g: Segment)
    requires Valid(e)
    ensures Valid(TakePush(e, g)) && TakePush(e, g).rcv.nxt >= e.rcv.nxt
  {
    TakeDataKeepsReceiver(e.rcv, OnWire(g));
  }

  /** One segment, whatever it says, keeps the invariant; `una` and `nxt` never move back. */
  lemma HandleKeepsValid(s: Scan, g: Segment)
    requires Valid(s.e)
    ensures var e' := Handle(s, g).e;
            && Valid(e') && e'.snd.una >= s.e.snd.una && e'.snd.nxt == s.e.snd.nxt && e'.rcv.nxt >= s.e.rcv.nxt
            && e'.cc == s.e.cc
  {
    var e := TakeHeader(s.e, g);
    AcksKeepValid(s.e, g);
    if g.cmd == CMD_ACK {
      AcksKeepValid(e, g);
    } else if g.cmd == CMD_PUSH {
      PushKeepsValid(e, g);
    }
  }

  lemma {:induction false} HandleAllKeepsValid(s: Scan, segs: seq<Segment>)
    requires Valid(s.e)
    ensures var e' := HandleAll(s, segs).e;
            Valid(e') && e'.snd.una >= s.e.snd.una && e'.snd.nxt == s.e.snd.nxt && e'.rcv.nxt >= s.e.rcv.nxt
    decreases |segs|
  {
    if segs != [] {
      HandleKeepsValid(s, segs[0]);
      HandleAllKeepsValid(Handle(s, segs[0]), segs[1..]);
    }
  }

  lemma ConcludeKeepsValid(s: Scan, oldUna: nat)
    requires Valid(s.e)
    ensures var e' := Conclude(s, oldUna);
            && Valid(e') && e'.snd.una == s.e.snd.una && e'.snd.nxt == s.e.snd.nxt && e'.rcv == s.e.rcv
            && s.e.cc.cwnd <= e'.cc.cwnd <= s.e.cc.cwnd + 1
            && (e'.cc.cwnd > s.e.cc.cwnd ==> e'.cc.cwnd <= e'.rmtWnd && e'.snd.una > oldUna)
  {
    if s.acked {
      FastackKeepsSender(s.e.snd, s.maxAck);
    }
    AdvanceMeaning(s.e.cc, s.e.rmtWnd, s.e.cfg.mss);
  }

  lemma {:induction false} InputLoopKeepsValid(s: Scan, b: seq<byte>)
    requires Valid(s.e)
    ensures var e' := InputLoop(s, b).0.e;
            && Valid(e') && e'.snd.una >= s.e.snd.una && e'.snd.nxt == s.e.snd.nxt && e'.rcv.nxt >= s.e.rcv.nxt
            && e'.cc == s.e.cc
    decreases |b|
  {
    if |b| >= OVERHEAD && HeaderError(s.e.cfg.conv, b).None? {
      HandleKeepsValid(s, SegmentAt(s.e, b));
      InputLoopKeepsValid(Handle(s, SegmentAt(s.e, b)), b[NextHeader(s.e, b)..]);
    }
  }

  /** Whatever bytes arrive, from a well-behaved peer or not, `input` keeps every invariant of the endpoint, never
      moves `una` or the next number expected back, and raises the congestion window by at most one and not past
      the peer's window. */
  lemma InputKeepsValid(e: Endpoint, b: seq<byte>)
    requires Valid(e)
    ensures var e' := Input(e, b).0;
            && Valid(e') && e'.snd.una >= e.snd.una && e'.snd.nxt == e.snd.nxt && e'.rcv.nxt >= e.rcv.nxt
            && e.cc.cwnd <= e'.cc.cwnd <= e.cc.cwnd + 1
            && (e'.cc.cwnd > e.cc.cwnd ==> e'.cc.cwnd <= e'.rmtWnd)
  {
    if |b| >= OVERHEAD {
      var s := Scan(e, false, 0);
      InputLoopKeepsValid(s, b);
      ConcludeKeepsValid(InputLoop(s, b).0, e.snd.una);
    }
  }

  lemma AdmittedIsPush(e: Endpoint, i: nat)
    requires AllPushed(e.snd.buf) && i < |Admitted(e).buf|
    ensures Admitted(e).buf[i].cmd == CMD_PUSH
  {
    AdmitShape(e.snd, WindowLimit(e), StampOf(e));
  }

  lemma VisitKeepsShape(buf: seq<Segment>, p: Pace, i: nat)
    requires i < |buf|
    ensures var g, v := buf[i], VisitAll(buf, p)[i];
            && v.sn == g.sn && PieceOf(v) == PieceOf(g) && v.cmd == g.cmd && v.conv == g.conv
            && v.xmit >= 1 && v.xmit == g.xmit + (if DueOf(g, p) == NotDue then 0 else 1)
  {
  }

  lemma VisitAllKeepsSender(s: Sender, p: Pace)
    requires SndOk(s)
    ensures SndOk(s.(buf := VisitAll(s.buf, p)))
  {
    var v := VisitAll(s.buf, p);
    forall i | 0 <= i < |v| ensures v[i].sn == s.buf[i].sn {
      VisitKeepsShape(s.buf, p, i);
    }
  }

  /** A flush keeps the invariant; afterwards every segment of the window has been transmitted, and each number it
      gave out lies inside the send window, the peer's window and, when in force, the congestion window. */
  lemma FlushKeepsValid(e: Endpoint)
    requires Valid(e)
    ensures var e' := Flush(e);
            && Valid(e') && e'.snd.una == e.snd.una && e'.snd.nxt >= e.snd.nxt && e'.rcv == e.rcv
            && (e'.snd.nxt > e.snd.nxt ==>
                  && e'.snd.nxt <= e.snd.una + e.cfg.sndWnd
                  && e'.snd.nxt <= e.snd.una + e.rmtWnd
                  && (!e.cfg.nocwnd ==> e'.snd.nxt <= e.snd.una + e.cc.cwnd))
  {
    if e.clk.updated {
      var s, p := Admitted(e), PaceOf(e);
      AdmitKeepsSender(e.snd, WindowLimit(e), StampOf(e));
      VisitAllKeepsSender(s, p);
      forall i | 0 <= i < |s.buf| ensures VisitAll(s.buf, p)[i].xmit >= 1 && VisitAll(s.buf, p)[i].cmd == CMD_PUSH {
        VisitKeepsShape(s.buf, p, i);
        AdmittedIsPush(e, i);
      }
      ProbeStepKeeps(e.probe, e.rmtWnd, e.clk.current);
      FlushMeaning(e.cc, AnyDue(s.buf, p, Fast), AnyDue(s.buf, p, Timeout), p.resent, s.nxt - s.una,
                   WindowLimit(e), e.cfg.mss);
    }
  }

  /** `nodelay`: a negative argument leaves its setting alone, and the interval is clamped. */
  function WithSettings(c: Config, nodelay: int, interval: int, resend: int, nc: bool): Config {
    c.(nodelay := if nodelay >= 0 then nodelay else c.nodelay,
       minRto := if nodelay < 0 then c.minRto else if nodelay > 0 then RTO_NDL else RTO_MIN,
       interval := if interval >= 0 then Max(10, Min(interval, 5000)) else c.interval,
       fastresend := if resend >= 0 then resend else c.fastresend,
       nocwnd := nc)
  }

  /** Whatever its arguments, `nodelay` keeps the invariant, also on a connection in use. */
  lemma SettingsKeepValid(e: Endpoint, nodelay: int, interval: int, resend: int, nc: bool)
    requires Valid(e)
    ensures var cfg := WithSettings(e.cfg, nodelay, interval, resend, nc);
            Valid(e.(cfg := cfg)) && (interval >= 0 ==> 10 <= cfg.interval <= 5000)
  {
  }

  lemma TickKeepsValid(e: Endpoint, now: u32)
    requires Valid(e)
    ensures Valid(Tick(e, now).0)
  {
  }

  lemma UpdateKeepsValid(e: Endpoint, now: u32)
    requires Valid(e)
    ensures Valid(Update(e, now).0)
  {
    var e1 := Tick(e, now).0;
    FlushKeepsValid(e1);
  }
}
