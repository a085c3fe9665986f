/** The control block as it is kept in memory: one object whose fields every operation updates in place. Each
    method is proved against the operation of the same name on endpoint values in `Protocol`. */
module ControlBlock {
  import opened Machine
  import opened Wire
  import opened Message
  import opened SendWindow
  import opened ReceiveWindow
  import opened RttEstimator
  import opened CongestionWindow
  import opened Retransmission
  import opened WindowProbe
  import opened Timer
  import opened Packing
  import Protocol

  class Kcb {
    const conv: u32
    const packer: Packer  // what the output buffer answers when asked for its free room

    var mtu: nat
    var mss: nat
    var sndUna: nat
    var sndNxt: nat
    var rcvNxt: nat
    var ssthresh: nat
    var rxRttval: u32
    var rxSrtt: u32
    var rxRto: u32
    var rxMinrto: u32
    var sndWnd: nat
    var rcvWnd: nat
    var rmtWnd: nat
    var cwnd: nat
    var askSend: bool  // the two bits of the probe mask
    var askTell: bool
    var current: u32
    var interval: u32
    var tsFlush: u32
    var xmit: nat
    var nodelay: nat
    var updated: bool
    var tsProbe: u32
    var probeWait: nat
    var incr: nat
    var sndQueue: seq<Segment>
    var rcvQueue: seq<Segment>
    var sndBuf: seq<Segment>
    var rcvBuf: seq<Segment>
    var acklist: seq<Protocol.Ack>
    var buffer: seq<byte>
    var fastresend: nat
    var nocwnd: bool
    var output: seq<seq<byte>>

    // ---------- The endpoint that the fields represent

    ghost function Snd(): Sender
      reads this
    {
      Sender(sndUna, sndNxt, sndQueue, sndBuf)
    }

    ghost function Rcv(): Receiver
      reads this
    {
      Receiver(rcvNxt, rcvWnd, rcvQueue, rcvBuf)
    }

    ghost function Timing(): Rtt
      reads this
    {
      Rtt(rxSrtt, rxRttval, rxRto)
    }

    ghost function Window(): Congestion
      reads this
    {
      Congestion(cwnd, incr, ssthresh)
    }

    ghost function Probing(): Prober
      reads this
    {
      Prober(probeWait, tsProbe, askSend, askTell)
    }

    ghost function Clk(): Clock
      reads this
    {
      Clock(current, tsFlush, updated)
    }

    ghost function Cfg(): Protocol.Config
      reads this
    {
      Protocol.Config(conv, mtu, mss, sndWnd, interval, nodelay, rxMinrto, fastresend, nocwnd)
    }

    ghost function View(): Protocol.Endpoint
      reads this
    {
      Protocol.Endpoint(Cfg(), Snd(), Rcv(), acklist, Timing(), Window(), rmtWnd, Probing(), Clk(), xmit)
    }

    ghost function Wire(): Out
      reads this
    {
      Out(buffer, output)
    }

    ghost predicate Valid()
      reads this
    {
      Protocol.Valid(View())
    }

    constructor (conv: u32, packer: Packer)
      ensures View() == Protocol.Fresh(conv) && Valid()
      ensures this.packer == packer && Wire() == Out([], [])
    {
      this.conv, this.packer := conv, packer;
      sndUna, sndNxt, rcvNxt := 0, 0, 0;
      rxRttval, rxSrtt, cwnd := 0, 0, 0;
      askSend, askTell := false, false;
      current, xmit, nodelay, updated := 0, 0, 0, false;
      tsProbe, probeWait, incr, fastresend, nocwnd := 0, 0, 0, 0, false;
      sndWnd, rcvWnd, rmtWnd := Protocol.WND_SND, Protocol.WND_RCV, Protocol.WND_RCV;
      mtu, mss := Protocol.MTU_DEF, Protocol.MTU_DEF - OVERHEAD;
      buffer, output := [], [];
      sndQueue, rcvQueue, sndBuf, rcvBuf, acklist := [], [], [], [], [];
      rxRto, rxMinrto := RTO_DEF, RTO_MIN;
      interval, tsFlush := INTERVAL_DEF, INTERVAL_DEF;
      ssthresh := THRESH_INIT;
      new;
      Protocol.FreshIsValid(conv);
    }

    // ---------- Receiving messages

    /** Moves the next segments from the receive buffer to the receive queue while there is room. */
    method MoveReady()
      modifies this`rcvNxt, this`rcvQueue, this`rcvBuf
      ensures Rcv() == Drain(old(Rcv()))
    {
      var index, nrcvQue := 0, |rcvQueue|;
      ghost var r := Rcv();
      assert rcvQueue + rcvBuf[..0] == rcvQueue && rcvBuf[0..] == rcvBuf;
      while index < |rcvBuf|
        invariant index <= |rcvBuf| && nrcvQue == |rcvQueue| + index
        invariant rcvQueue == r.queue && rcvBuf == r.buf
        invariant Drain(r) == Drain(Receiver(rcvNxt, rcvWnd, rcvQueue + rcvBuf[..index], rcvBuf[index..]))
      {
        if rcvBuf[index].sn == rcvNxt && nrcvQue < rcvWnd {
          assert rcvQueue + rcvBuf[..index + 1] == (rcvQueue + rcvBuf[..index]) + [rcvBuf[index]];
          assert rcvBuf[index + 1..] == rcvBuf[index..][1..];
          nrcvQue := nrcvQue + 1;
          rcvNxt := rcvNxt + 1;
          index := index + 1;
        } else {
          break;
        }
      }
      if index > 0 {
        rcvQueue := rcvQueue + rcvBuf[..index];
        rcvBuf := rcvBuf[index..];
      }
    }

    /** The size of the next message, if it is complete. */
    method PeekSize() returns (size: Option<nat>)
      ensures size == Message.PeekSize(Pieces(rcvQueue))
    {
      if rcvQueue == [] {
        return None;
      }
      var front := rcvQueue[0];
      if front.frg == 0 {
        return Some(|front.data|);
      }
      if |rcvQueue| < (front.frg + 1) % 0x100 {
        return None;
      }
      var length, i := 0, 0;
      ghost var p := Pieces(rcvQueue);
      assert p[0..] == p;
      while i < |rcvQueue|
        invariant i <= |p| && Span(p) == i + Span(p[i..]) && length == |Join(p[..i])|
      {
        assert p[i..][1..] == p[i + 1..] && p[..i + 1] == p[..i] + [p[i]];
        JoinAppend(p[..i], [p[i]]);
        assert Join([p[i]]) == p[i].data + Join([]);
        length := length + |rcvQueue[i].data|;
        i := i + 1;
        if rcvQueue[i - 1].frg == 0 {
          assert Span(p) == i;
          break;
        }
      }
      assert p[..Span(p)] == p[..i];
      return Some(length);
    }

    /** Copies the next message to the front of `buf` and returns its size. */
    method Recv(buf: array<byte>) returns (r: Result<nat>)
      requires Valid()
      modifies this, buf
      ensures View() == Protocol.Recv(old(View()), buf.Length).0 && Valid()
      ensures Wire() == old(Wire())
      ensures match Protocol.Recv(old(View()), buf.Length).1
              case Err(error) => r == Err(error) && buf[..] == old(buf[..])
              case Ok(msg) => r == Ok(|msg|) && |msg| <= buf.Length && buf[..] == msg + old(buf[|msg|..])
    {
      hide Protocol.Valid, Drain, Span, Join, Message.PeekSize;
      ghost var e := View();
      Protocol.RecvKeepsValid(e, buf.Length);
      if rcvQueue == [] {
        return Err(EndOfFile);
      }
      var peek := PeekSize();
      if peek.None? {
        return Err(UnexpectedEof);
      }
      if peek.value > buf.Length {
        return Err(InvalidInput);
      }
      PeekAgreesWithTake(Pieces(rcvQueue));
      var position := TakeMessage(buf);
      assert View() == e.(rcv := Rcv(), probe := e.probe.(askTell := askTell));
      return Ok(position);
    }

    /** Takes the next message out of the queue; an announcement is due when this makes room in a full queue. */
    method TakeMessage(buf: array<byte>) returns (position: nat)
      requires |Protocol.NextMessage(rcvQueue)| <= buf.Length
      modifies buf, this`rcvNxt, this`rcvQueue, this`rcvBuf, this`askTell
      ensures Rcv() == Take(old(Rcv()), Span(Pieces(old(rcvQueue))))
      ensures askTell == (old(askTell) || (|old(rcvQueue)| >= rcvWnd && |rcvQueue| < rcvWnd))
      ensures var msg := Protocol.NextMessage(old(rcvQueue)); position == |msg| && buf[..] == msg + old(buf[|msg|..])
    {
      hide Drain, Span, Join;
      var recover := |rcvQueue| >= rcvWnd;
      var index;
      index, position := Merge(buf);
      rcvQueue := rcvQueue[index..];
      MoveReady();
      if |rcvQueue| < rcvWnd && recover {
        askTell := true;
      }
    }

    method CopyInto(buf: array<byte>, position: nat, data: seq<byte>)
      requires position + |data| <= buf.Length
      modifies buf
      ensures buf[..] == old(buf[..position]) + data + old(buf[position + |data|..])
    {
      forall i | 0 <= i < |data| {
        buf[position + i] := data[i];
      }
    }

    /** Writes the fragments of the next message one after another into `buf`. */
    method Merge(buf: array<byte>) returns (index: nat, position: nat)
      requires |Protocol.NextMessage(rcvQueue)| <= buf.Length
      modifies buf
      ensures index == Span(Pieces(rcvQueue))
      ensures var msg := Protocol.NextMessage(rcvQueue); position == |msg| && buf[..] == msg + old(buf[|msg|..])
    {
      hide Join, Span;
      index, position := 0, 0;
      ghost var p := Pieces(rcvQueue);
      ghost var was := buf[..];
      assert p[0..] == p;
      NothingTaken(p);
      while index < |rcvQueue|
        invariant index <= |p| && Span(p) == index + Span(p[index..])
        invariant position == |Join(p[..index])| <= buf.Length
        invariant buf[..] == Join(p[..index]) + was[position..]
      {
        var data := rcvQueue[index].data;
        PrefixFits(p, index);
        ghost var done := Join(p[..index]);
        CopyInto(buf, position, data);
        assert (done + was[position..])[..position] == done;
        assert (done + was[position..])[position + |data|..] == was[position + |data|..];
        position := position + |data|;
        index := index + 1;
        if rcvQueue[index - 1].frg == 0 {
          break;
        }
      }
      NothingTaken(p);
      assert p[..Span(p)] == p[..index];
    }

    static lemma NothingTaken(p: seq<Piece>)
      ensures Join(p[..0]) == [] && Span(p[|p|..]) == 0
    {
    }

    /** Appending one more piece of the next message stays within the message. */
    static lemma PrefixFits(p: seq<Piece>, i: nat)
      requires i < |p| && Span(p) == i + Span(p[i..])
      ensures Join(p[..i + 1]) == Join(p[..i]) + p[i].data
      ensures |Join(p[..i + 1])| <= |Join(p[..Span(p)])|
      ensures Span(p) == i + 1 + (if p[i].frg == 0 then 0 else Span(p[i + 1..]))
    {
      assert p[i..][1..] == p[i + 1..];
      assert p[..i + 1] == p[..i] + [p[i]];
      JoinAppend(p[..i], [p[i]]);
      assert Join([p[i]]) == p[i].data + Join([]);
      assert p[..Span(p)] == p[..i + 1] + p[i + 1..Span(p)];
      JoinAppend(p[..i + 1], p[i + 1..Span(p)]);
    }

    // ---------- Sending messages

    /** Cuts a message into fragments and queues them. */
    method Send(msg: seq<byte>) returns (r: Result<nat>)
      requires Valid()
      modifies this`sndQueue
      ensures View() == Protocol.Send(old(View()), msg).0 && Valid()
      ensures r == Protocol.Send(old(View()), msg).1
    {
      hide Protocol.Valid, Fragment;
      ghost var e := View();
      Protocol.SendKeepsValid(e, msg);
      Protocol.ValidParts(e);
      var n := |msg|;
      if n == 0 {
        return Err(InvalidInput);
      }
      var count := if n <= mss then 1 else (n + mss - 1) / mss;
      if count > 255 {
        return Err(InvalidInput);
      }
      FragmentShape(mss, msg, 0);
      QueueFragments(msg, count);
      return Ok(n);
    }

    method QueueFragments(msg: seq<byte>, count: nat)
      requires mss > 0 && msg != [] && count == Count(mss, |msg|) <= 255
      modifies this`sndQueue
      ensures sndQueue == old(sndQueue) + Protocol.WrapAll(Fragment(mss, msg))
    {
      hide Fragment, Count;
      var n := |msg|;
      CountIsCeiling(mss, n);
      var i, pos := 0, 0;
      ghost var q, all := sndQueue, Fragment(mss, msg);
      FragmentShape(mss, msg, 0);
      while i < count
        invariant i <= count && pos <= n && |all| == count
        invariant pos == if i < count then i * mss else n
        invariant sndQueue == q + Protocol.WrapAll(all[..i])
      {
        FragmentShape(mss, msg, i);
        var size := Min(mss, n - pos);
        var data := msg[pos..pos + size];
        var seg := BLANK.(data := data, frg := count - i - 1);
        NextPosition(mss, n, i, count);
        assert seg == Protocol.Wrap(all[i]);
        assert Protocol.WrapAll(all[..i + 1]) == Protocol.WrapAll(all[..i]) + [Protocol.Wrap(all[i])];
        sndQueue := sndQueue + [seg];
        pos := pos + size;
        i := i + 1;
      }
      assert all[..count] == all;
    }

    /** Block `i` of `count` starts at `i * mss`; all but the last are full. */
    static lemma NextPosition(mss: nat, n: nat, i: nat, count: nat)
      requires mss > 0 && i < count && (count - 1) * mss < n <= count * mss
      ensures i * mss < n
      ensures i + 1 < count ==> i * mss + mss == (i + 1) * mss < n
      ensures i + 1 == count ==> n <= i * mss + mss
    {
      Monotone(i, count - 1, mss);
      if i + 1 < count {
        Monotone(i + 1, count - 1, mss);
      }
      assert i * mss + mss == (i + 1) * mss;
    }

    // ---------- Acknowledgements

    method UpdateAck(rtt: u32)
      modifies this`rxSrtt, this`rxRttval, this`rxRto
      ensures Timing() == TakeSample(old(Timing()), rtt, interval, rxMinrto)
    {
      if rxSrtt == 0 {
        rxSrtt := rtt;
        rxRttval := rtt / 2;
      } else {
        var delta := if rtt > rxSrtt then rtt - rxSrtt else rxSrtt - rtt;
        rxRttval := W32(3 * rxRttval + delta) / 4;
        rxSrtt := W32(7 * rxSrtt + rtt) / 8;
        if rxSrtt < 1 {
          rxSrtt := 1;
        }
      }
      var rto := W32(rxSrtt + Max(interval, W32(4 * rxRttval)));
      rxRto := Bound(rxMinrto, rto, RTO_MAX);
    }

    method ShrinkBuf()
      modifies this`sndUna
      ensures Snd() == Shrink(old(Snd()))
    {
      sndUna := if sndBuf != [] then sndBuf[0].sn else sndNxt;
    }

    /** The early-exit scan removes exactly the segment numbered `sn`. */
    method ParseAck(sn: nat)
      requires SndOk(Snd())
      modifies this`sndBuf
      ensures sndBuf == Without(old(sndBuf), sn)
    {
      if sn < sndUna || sn >= sndNxt {
        FilterAll(sndBuf, (s: Segment) => s.sn != sn);
        return;
      }
      var i := 0;
      while i < |sndBuf|
        invariant i <= |sndBuf| && sndBuf == old(sndBuf)
        invariant forall j :: 0 <= j < i ==> sndBuf[j].sn < sn
      {
        if sn == sndBuf[i].sn {
          ScanIsWithout(sndBuf, sn, i);
          sndBuf := sndBuf[..i] + sndBuf[i + 1..];
          return;
        } else if sn < sndBuf[i].sn {
          break;
        }
        i := i + 1;
      }
      ScanIsWithout(sndBuf, sn, i);
    }

    /** The early-exit scan removes exactly the segments below `una`. */
    method ParseUna(una: nat)
      requires SndOk(Snd())
      modifies this`sndBuf
      ensures sndBuf == KeepFrom(old(sndBuf), una)
    {
      var index := 0;
      while index < |sndBuf|
        invariant index <= |sndBuf|
        invariant forall j :: 0 <= j < index ==> sndBuf[j].sn < una
      {
        if una > sndBuf[index].sn {
          index := index + 1;
        } else {
          break;
        }
      }
      ScanIsKeepFrom(sndBuf, una, index);
      if index > 0 {
        sndBuf := sndBuf[index..];
      }
    }

    /** The early-exit scan counts a skip for exactly the segments below `sn`. */
    method ParseFastack(sn: nat)
      requires SndOk(Snd())
      modifies this`sndBuf
      ensures Snd() == TakeFastack(old(Snd()), sn)
    {
      if sn < sndUna || sn >= sndNxt {
        return;
      }
      var i := 0;
      ghost var was := sndBuf;
      while i < |sndBuf|
        invariant i <= |sndBuf| == |was|
        invariant forall j :: 0 <= j < i ==> was[j].sn <= sn && sndBuf[j] == Skipped(was, sn)[j]
        invariant forall j :: i <= j < |was| ==> sndBuf[j] == was[j]
      {
        if sn < sndBuf[i].sn {
          break;
        } else if sn != sndBuf[i].sn {
          sndBuf := sndBuf[i := sndBuf[i].(fastack := sndBuf[i].fastack + 1)];
        }
        i := i + 1;
      }
      assert sndBuf == Skipped(was, sn);
    }

    // ---------- Arrivals

    method ParseData(g: Segment)
      requires RcvOk(Rcv())
      modifies this`rcvNxt, this`rcvQueue, this`rcvBuf
      ensures Rcv() == TakeData(old(Rcv()), g)
    {
      var sn := g.sn;
      if sn >= rcvNxt + rcvWnd || sn < rcvNxt {
        return;
      }
      var repeated, index := false, |rcvBuf|;
      while index > 0
        invariant 0 <= index <= |rcvBuf| && !repeated
        invariant forall j :: index <= j < |rcvBuf| ==> sn < rcvBuf[j].sn
      {
        if sn == rcvBuf[index - 1].sn {
          repeated := true;
          break;
        } else if sn > rcvBuf[index - 1].sn {
          break;
        }
        index := index - 1;
      }
      if !repeated {
        InsertAt(rcvBuf, g, index);
        rcvBuf := rcvBuf[..index] + [g] + rcvBuf[index..];
      } else {
        assert rcvBuf[index - 1] in rcvBuf;
        InsertDuplicate(rcvBuf, g);
      }
      MoveReady();
    }

    /** What `input` does for one segment of known command. */
    method HandleSegment(g: Segment, acked: bool, maxAck: nat) returns (acked': bool, maxAck': nat)
      requires Valid()
      modifies this
      ensures Protocol.Scan(View(), acked', maxAck') == Protocol.Handle(Protocol.Scan(old(View()), acked, maxAck), g)
      ensures Valid() && Wire() == old(Wire())
    {
      hide Protocol.Valid, SndOk, Protocol.TakeHeader, Protocol.Command;
      ghost var e := View();
      Protocol.HandleKeepsValid(Protocol.Scan(e, acked, maxAck), g);
      Protocol.AcksKeepValid(e, g);
      Protocol.ValidParts(e);
      HandleHeader(g);
      acked', maxAck' := HandleCommand(g, acked, maxAck);
    }

    method HandleCommand(g: Segment, acked: bool, maxAck: nat) returns (acked': bool, maxAck': nat)
      requires Valid()
      modifies this`rxSrtt, this`rxRttval, this`rxRto, this`sndBuf, this`sndUna
      modifies this`acklist, this`rcvNxt, this`rcvQueue, this`rcvBuf, this`askTell
      ensures Protocol.Scan(View(), acked', maxAck') == Protocol.Command(Protocol.Scan(old(View()), acked, maxAck), g)
    {
      hide Protocol.Valid, SndOk, RcvOk, Protocol.TakeAckCommand, Protocol.TakePush;
      acked', maxAck' := acked, maxAck;
      ghost var e := View();
      Protocol.ValidParts(e);
      if g.cmd == CMD_ACK {
        HandleAck(g);
        if !acked {
          acked', maxAck' := true, g.sn;
        } else if g.sn > maxAck {
          maxAck' := g.sn;
        }
      } else if g.cmd == CMD_PUSH {
        HandlePush(g);
      } else if g.cmd == CMD_WASK {
        askTell := true;
        assert View() == e.(probe := e.probe.(askTell := true));
      }
    }

    /** What the cumulative acknowledgement of a header does to the send window. */
    method AcknowledgeBelow(una: nat)
      requires SndOk(Snd())
      modifies this`sndBuf, this`sndUna
      ensures Snd() == TakeUna(old(Snd()), una)
    {
      hide SndOk, KeepFrom;
      ParseUna(una);
      ShrinkBuf();
    }

    /** What the acknowledgement of one number does to the send window. */
    method AcknowledgeOne(sn: nat)
      requires SndOk(Snd())
      modifies this`sndBuf, this`sndUna
      ensures Snd() == TakeAck(old(Snd()), sn)
    {
      hide SndOk, Without;
      ParseAck(sn);
      ShrinkBuf();
    }

    method HandleHeader(g: Segment)
      requires SndOk(Snd())
      modifies this`rmtWnd, this`sndBuf, this`sndUna
      ensures View() == Protocol.TakeHeader(old(View()), g)
    {
      hide SndOk, TakeUna;
      ghost var e := View();
      rmtWnd := g.wnd;
      AcknowledgeBelow(g.una);
      assert View() == e.(rmtWnd := g.wnd, snd := TakeUna(e.snd, g.una));
    }

    method HandleAck(g: Segment)
      requires SndOk(Snd())
      modifies this`rxSrtt, this`rxRttval, this`rxRto, this`sndBuf, this`sndUna
      ensures View() == Protocol.TakeAckCommand(old(View()), g)
    {
      hide SndOk, TakeAck, TakeSample;
      ghost var e := View();
      HandleTiming(g.ts);
      AcknowledgeOne(g.sn);
      assert View() == e.(rtt := Timing(), snd := TakeAck(e.snd, g.sn));
    }

    /** A timing sample, unless the acknowledgement carries a time ahead of the clock. */
    method HandleTiming(ts: u32)
      modifies this`rxSrtt, this`rxRttval, this`rxRto
      ensures Timing() == Protocol.TakeTiming(old(View()), ts).rtt
    {
      hide TakeSample;
      var rtt := TimeDiff(current, ts);
      if rtt >= 0 {
        UpdateAck(rtt);
      }
    }

    method HandlePush(g: Segment)
      requires RcvOk(Rcv())
      modifies this`acklist, this`rcvNxt, this`rcvQueue, this`rcvBuf
      ensures View() == Protocol.TakePush(old(View()), g)
    {
      hide RcvOk, TakeData;
      ghost var e := View();
      AcceptPush(g);
      assert View() == e.(acks := acklist, rcv := Rcv());
    }

    /** Acknowledges and takes in a push that lies below the end of the window. */
    method AcceptPush(g: Segment)
      requires RcvOk(Rcv())
      modifies this`acklist, this`rcvNxt, this`rcvQueue, this`rcvBuf
      ensures var e := Protocol.TakePush(old(View()), g); acklist == e.acks && Rcv() == e.rcv
    {
      hide RcvOk, TakeData;
      if g.sn < rcvNxt + rcvWnd {
        acklist := acklist + [Protocol.Ack(g.sn, g.ts)];
        TakePayload(g);
      }
    }

    /** Builds the received segment and takes it in, unless it lies below the window. */
    method TakePayload(g: Segment)
      requires RcvOk(Rcv())
      modifies this`rcvNxt, this`rcvQueue, this`rcvBuf
      ensures Rcv() == TakeData(old(Rcv()), OnWire(g))
    {
      hide RcvOk;
      if g.sn >= rcvNxt {
        ParseData(OnWire(g));
      }
    }

    /** Takes in a datagram. */
    method Input(data: seq<byte>) returns (r: Result<nat>)
      requires Valid()
      modifies this
      ensures View() == Protocol.Input(old(View()), data).0 && Valid()
      ensures r == Protocol.Input(old(View()), data).1
      ensures Wire() == old(Wire())
    {
      hide Protocol.Valid, Protocol.Handle, Protocol.InputLoop, Protocol.SegmentAt, Protocol.Conclude, DecodeHeader,
        KnownCommand, Arrived;
      ghost var e, o := View(), Wire();
      Protocol.InputKeepsValid(e, data);
      Protocol.ValidParts(e);
      var n := |data|;
      if n < OVERHEAD {
        return Err(InvalidData);
      }
      var oldUna, acked, maxAck, pos := sndUna, false, 0, 0;
      ghost var goal := Protocol.InputLoop(Protocol.Scan(e, false, 0), data);
      assert data[0..] == data;
      while n - pos >= OVERHEAD
        invariant pos <= n && Valid() && Wire() == o
        invariant goal == Protocol.InputLoop(Protocol.Scan(View(), acked, maxAck), data[pos..])
        decreases n - pos
      {
        ghost var s := Protocol.Scan(View(), acked, maxAck);
        Protocol.InputLoopUnfold(s, data[pos..]);
        var h := DecodeHeader(data[pos..]);
        if h.conv != conv {
          return Err(InvalidData);
        }
        if n - pos - OVERHEAD < h.len {
          return Err(UnexpectedEof);
        }
        if !KnownCommand(h.cmd) {
          return Err(InvalidData);
        }
        var g := Arrived(h, data[pos..][OVERHEAD..OVERHEAD + h.len]);
        var step := if h.cmd == CMD_PUSH && rcvNxt <= h.sn < rcvNxt + rcvWnd then OVERHEAD + h.len else OVERHEAD;
        assert g == Protocol.SegmentAt(s.e, data[pos..]) by { Protocol.SegmentAtHeader(s.e, data[pos..]); }
        acked, maxAck := HandleSegment(g, acked, maxAck);
        assert data[pos..][step..] == data[pos + step..];
        pos := pos + step;
      }
      Protocol.InputLoopUnfold(Protocol.Scan(View(), acked, maxAck), data[pos..]);
      ConcludeInput(acked, maxAck, oldUna);
      return Ok(pos);
    }

    /** After the last segment: fast acknowledgement, then congestion control. */
    method ConcludeInput(acked: bool, maxAck: nat, oldUna: nat)
      requires Valid()
      modifies this`sndBuf, this`cwnd, this`incr
      ensures View() == Protocol.Conclude(Protocol.Scan(old(View()), acked, maxAck), oldUna)
    {
      hide Protocol.Valid, SndOk, OnAdvance, TakeFastack;
      ghost var e := View();
      Protocol.ValidParts(e);
      AdaptWindows(acked, maxAck, oldUna);
      assert View() == e.(snd := Snd(), cc := Window());
    }

    method AdaptWindows(acked: bool, maxAck: nat, oldUna: nat)
      requires SndOk(Snd()) && mss > 0
      modifies this`sndBuf, this`cwnd, this`incr
      ensures Snd() == if acked then TakeFastack(old(Snd()), maxAck) else old(Snd())
      ensures Window() == if sndUna > oldUna then OnAdvance(old(Window()), rmtWnd, mss) else old(Window())
    {
      hide SndOk, OnAdvance, TakeFastack;
      if acked {
        ParseFastack(maxAck);
      }
      if sndUna > oldUna {
        GrowWindow();
      }
    }

    /** Congestion control after an input that acknowledged new data. */
    method GrowWindow()
      requires mss > 0
      modifies this`cwnd, this`incr
      ensures Window() == OnAdvance(old(Window()), rmtWnd, mss)
    {
      hide Growth;
      if cwnd < rmtWnd {
        if cwnd < ssthresh {
          cwnd := cwnd + 1;
          incr := incr + mss;
        } else {
          AvoidCongestion();
        }
        ClampWindow();
      }
    }

    method ClampWindow()
      modifies this`cwnd, this`incr
      ensures Window() == Clamp(old(Window()), rmtWnd, mss)
    {
      if cwnd > rmtWnd {
        cwnd := rmtWnd;
        incr := rmtWnd * mss;
      }
    }

    method AvoidCongestion()
      requires mss > 0 && cwnd >= ssthresh
      modifies this`cwnd, this`incr
      ensures Window() == Grow(old(Window()), mss)
    {
      if incr < mss {
        incr := mss;
      }
      assert mss * mss / incr + mss / 16 == Growth(incr, mss);
      incr := incr + mss * mss / incr + mss / 16;
      if (cwnd + 1) * mss <= incr {
        cwnd := cwnd + 1;
      }
    }

    method WndUnused() returns (n: nat)
      ensures n == Protocol.Unused(Rcv())
    {
      var nrcvQue := |rcvQueue|;
      if nrcvQue < rcvWnd {
        return rcvWnd - nrcvQue;
      }
      return 0;
    }

    // ---------- Flush

    /** Writes a segment, field by field, behind what the buffer holds. */
    method EncodeSegment(g: Segment)
      modifies this`buffer
      ensures buffer == old(buffer) + Encode(g)
    {
      buffer := buffer + Le32(g.conv);
      buffer := buffer + [g.cmd];
      buffer := buffer + [g.frg];
      buffer := buffer + Le16(g.wnd);
      buffer := buffer + Le32(g.ts);
      buffer := buffer + Le32(g.sn);
      buffer := buffer + Le32(g.una);
      buffer := buffer + Le32(|g.data|);
      buffer := buffer + g.data;
    }

    /** Makes room if the buffer asks for it, then encodes a segment. */
    method Emit(g: Segment)
      modifies this`buffer, this`output
      ensures Wire() == Put(packer, mtu, old(Wire()), g)
    {
      if packer.full(Out(buffer, output), OVERHEAD + |g.data|, mtu) {
        output := output + [buffer];
        buffer := [];
      }
      EncodeSegment(g);
    }

    method FlushAcks(t: Segment) returns (seg: Segment)
      requires t.data == []
      modifies this`buffer, this`output, this`acklist
      ensures acklist == [] && seg == Protocol.AfterAcks(t, old(acklist))
      ensures Wire() == PutAll(packer, mtu, old(Wire()), Protocol.AckSegments(t, old(acklist)))
    {
      hide Put, PutAll;
      seg := t;
      var i := 0;
      NothingPut(packer, mtu, Wire());
      ghost var all := Protocol.AckSegments(t, acklist);
      while i < |acklist|
        invariant i <= |acklist| && acklist == old(acklist)
        invariant seg == Protocol.AfterAcks(t, acklist[..i])
        invariant Wire() == PutAll(packer, mtu, old(Wire()), all[..i])
      {
        seg := seg.(sn := acklist[i].sn, ts := acklist[i].ts);
        assert seg == all[i];
        Emit(seg);
        assert all[..i + 1] == all[..i] + [all[i]];
        PutAllSnoc(packer, mtu, old(Wire()), all[..i], all[i]);
        i := i + 1;
      }
      assert all[..i] == all && acklist[..i] == acklist;
      acklist := [];
    }

    method ProbeWindow()
      modifies this`probeWait, this`tsProbe, this`askSend
      ensures Probing() == ProbeStep(old(Probing()), rmtWnd, current)
    {
      if rmtWnd == 0 {
        if probeWait == 0 {
          probeWait := PROBE_INIT;
          tsProbe := W32(current + probeWait);
        } else {
          if TimeDiff(current, tsProbe) >= 0 {
            if probeWait < PROBE_INIT {
              probeWait := PROBE_INIT;
            }
            probeWait := probeWait + probeWait / 2;
            if probeWait > PROBE_LIMIT {
              probeWait := PROBE_LIMIT;
            }
            tsProbe := W32(current + probeWait);
            askSend := true;
          }
        }
      } else {
        tsProbe := 0;
        probeWait := 0;
      }
    }

    method FlushProbes(t: Segment)
      modifies this`buffer, this`output, this`askSend, this`askTell
      ensures Probing() == Cleared(old(Probing()))
      ensures Wire() == PutAll(packer, mtu, old(Wire()), Protocol.ProbeSegments(t, old(Probing())))
    {
      ghost var segs := Protocol.ProbeSegments(t, Probing());
      var seg := t;
      if askSend {
        seg := seg.(cmd := CMD_WASK);
        Emit(seg);
      }
      PutAllSnoc(packer, mtu, old(Wire()), [], t.(cmd := CMD_WASK));
      assert [] + [t.(cmd := CMD_WASK)] == [t.(cmd := CMD_WASK)];
      ghost var first := if askSend then [t.(cmd := CMD_WASK)] else [];
      assert Wire() == PutAll(packer, mtu, old(Wire()), first);
      if askTell {
        seg := seg.(cmd := CMD_WINS);
        Emit(seg);
        PutAllSnoc(packer, mtu, old(Wire()), first, t.(cmd := CMD_WINS));
      } else {
        assert first + [] == first;
      }
      askSend, askTell := false, false;
    }

    /** Gives sequence numbers to queued segments while the window has room. */
    method MoveToBuf(limit: nat, wnd: nat)
      modifies this`sndNxt, this`sndQueue, this`sndBuf
      ensures Snd() == Admit(old(Snd()), limit, Stamp(conv, wnd, current, rcvNxt, rxRto))
    {
      ghost var t := Stamp(conv, wnd, current, rcvNxt, rxRto);
      while sndNxt < sndUna + limit
        invariant Admit(Snd(), limit, t) == Admit(old(Snd()), limit, t)
        decreases |sndQueue|
      {
        if sndQueue != [] {
          var seg := sndQueue[0];
          sndQueue := sndQueue[1..];
          seg := seg.(conv := conv, cmd := CMD_PUSH, wnd := wnd, ts := current, sn := sndNxt);
          sndNxt := sndNxt + 1;
          seg := seg.(una := rcvNxt, resendts := current, rto := rxRto, fastack := 0, xmit := 0);
          sndBuf := sndBuf + [seg];
        } else {
          break;
        }
      }
    }

    /** Transmits what is due, in the order of the send buffer. */
    method FlushData(wnd: nat, resent: nat, rtomin: nat) returns (lost: bool, change: bool)
      requires rtomin == if nodelay == 0 then rxRto / 8 else 0
      modifies this`sndBuf, this`xmit, this`buffer, this`output
      ensures var p, b := Pace(current, rxRto, nodelay, resent, wnd, rcvNxt), old(sndBuf);
              && sndBuf == VisitAll(b, p)
              && xmit == old(xmit) + Timeouts(b, p)
              && lost == AnyDue(b, p, Timeout) && change == AnyDue(b, p, Fast)
              && Wire() == PutAll(packer, mtu, old(Wire()), Transmitted(b, p))
    {
      hide Visit, DueOf, Put, PutAll, Transmitted, Timeouts;
      lost, change := false, false;
      ghost var p, b, o := Pace(current, rxRto, nodelay, resent, wnd, rcvNxt), sndBuf, Wire();
      var i := 0;
      NothingVisited(b, p);
      NothingPut(packer, mtu, o);
      while i < |sndBuf|
        invariant i <= |sndBuf| == |b|
        invariant sndBuf == VisitAll(b[..i], p) + b[i..]
        invariant xmit == old(xmit) + Timeouts(b[..i], p)
        invariant lost == AnyDue(b[..i], p, Timeout) && change == AnyDue(b[..i], p, Fast)
        invariant Wire() == PutAll(packer, mtu, o, Transmitted(b[..i], p))
      {
        assert sndBuf[i] == b[i];
        VisitedOneMore(b, p, i);
        ghost var done := VisitAll(b[..i], p);
        var lostNow, changeNow := VisitSegment(i, wnd, resent, rtomin);
        if DueOf(b[i], p) != NotDue {
          PutAllSnoc(packer, mtu, o, Transmitted(b[..i], p), Visit(b[i], p));
        } else {
          assert Transmitted(b[..i], p) + [] == Transmitted(b[..i], p);
        }
        lost, change := lost || lostNow, change || changeNow;
        assert sndBuf == (done + [Visit(b[i], p)]) + b[i + 1..];
        i := i + 1;
      }
      assert b[..i] == b;
    }

    static lemma NothingVisited(b: seq<Segment>, p: Pace)
      ensures VisitAll(b[..0], p) == [] && Transmitted(b[..0], p) == [] && Timeouts(b[..0], p) == 0
    {
    }

    static lemma NothingPut(packer: Packer, mtu: nat, o: Out)
      ensures PutAll(packer, mtu, o, []) == o
    {
    }

    /** Transmits segment `i` of the send buffer if it is due. */
    method VisitSegment(i: nat, wnd: nat, resent: nat, rtomin: nat) returns (lost: bool, change: bool)
      requires i < |sndBuf| && rtomin == if nodelay == 0 then rxRto / 8 else 0
      modifies this`sndBuf, this`xmit, this`buffer, this`output
      ensures var p, g := Pace(current, rxRto, nodelay, resent, wnd, rcvNxt), old(sndBuf[i]);
              && sndBuf == old(sndBuf)[i := Visit(g, p)]
              && lost == (DueOf(g, p) == Timeout) && change == (DueOf(g, p) == Fast)
              && xmit == old(xmit) + (if lost then 1 else 0)
              && Wire() == if DueOf(g, p) == NotDue then old(Wire()) else Put(packer, mtu, old(Wire()), Visit(g, p))
    {
      hide Put, W32, TimeDiff;
      lost, change := false, false;
      var segment, needsend := sndBuf[i], false;
      if segment.xmit == 0 {
        needsend := true;
        segment := segment.(xmit := segment.xmit + 1, rto := rxRto);
        segment := segment.(resendts := W32(current + segment.rto + rtomin));
      } else if TimeDiff(current, segment.resendts) >= 0 {
        needsend := true;
        segment := segment.(xmit := segment.xmit + 1);
        xmit := xmit + 1;
        if nodelay == 0 {
          segment := segment.(rto := segment.rto + rxRto);
        } else {
          segment := segment.(rto := segment.rto + rxRto / 2);
        }
        segment := segment.(resendts := W32(current + segment.rto));
        lost := true;
      } else if segment.fastack >= resent {
        needsend := true;
        segment := segment.(xmit := segment.xmit + 1, fastack := 0, resendts := W32(current + segment.rto));
        change := true;
      }
      if needsend {
        segment := segment.(ts := current, wnd := wnd, una := rcvNxt);
        sndBuf := sndBuf[i := segment];
        Emit(segment);
      }
    }

    static lemma VisitedOneMore(b: seq<Segment>, p: Pace, i: nat)
      requires i < |b|
      ensures VisitAll(b[..i + 1], p) == VisitAll(b[..i], p) + [Visit(b[i], p)]
      ensures Transmitted(b[..i + 1], p)
           == Transmitted(b[..i], p) + if DueOf(b[i], p) == NotDue then [] else [Visit(b[i], p)]
      ensures Timeouts(b[..i + 1], p) == Timeouts(b[..i], p) + if DueOf(b[i], p) == Timeout then 1 else 0
      ensures forall d :: AnyDue(b[..i + 1], p, d) <==> AnyDue(b[..i], p, d) || DueOf(b[i], p) == d
    {
      assert b[..i + 1] == b[..i] + [b[i]];
      TransmittedAppend(b[..i], [b[i]], p);
      assert Transmitted([b[i]], p) == (if DueOf(b[i], p) == NotDue then [] else [Visit(b[i], p)]) + Transmitted([], p);
      forall d ensures AnyDue(b[..i + 1], p, d) <==> AnyDue(b[..i], p, d) || DueOf(b[i], p) == d {
        assert b[i] in b[..i + 1];
      }
    }

    method UpdateWindow(change: bool, lost: bool, resent: nat, limit: nat)
      requires sndUna <= sndNxt
      modifies this`cwnd, this`incr, this`ssthresh
      ensures Window() == OnFlush(old(Window()), change, lost, resent, sndNxt - sndUna, limit, mss)
    {
      if change {
        var inflight := sndNxt - sndUna;
        ssthresh := inflight / 2;
        if ssthresh < THRESH_MIN {
          ssthresh := THRESH_MIN;
        }
        cwnd := ssthresh + resent;
        incr := cwnd * mss;
      }
      if lost {
        ssthresh := limit / 2;
        if ssthresh < THRESH_MIN {
          ssthresh := THRESH_MIN;
        }
        cwnd := 1;
        incr := mss;
      }
      if cwnd < 1 {
        cwnd := 1;
        incr := mss;
      }
    }

    /** The acknowledgements and probes of a flush. */
    method FlushControl(unused: nat)
      requires unused == Protocol.Unused(Rcv())
      modifies this`buffer, this`output, this`acklist, this`probeWait, this`tsProbe, this`askSend, this`askTell
      ensures View() == Protocol.ControlSent(old(View()))
      ensures Wire() == PutAll(packer, mtu, old(Wire()), Protocol.ControlSegments(old(View())))
    {
      hide ProbeStep, Put, PutAll, Protocol.ControlSegments;
      ghost var e := View();
      PutControl(unused);
      assert View() == e.(acks := [], probe := Probing());
    }

    method PutControl(unused: nat)
      requires unused == Protocol.Unused(Rcv())
      modifies this`buffer, this`output, this`acklist, this`probeWait, this`tsProbe, this`askSend, this`askTell
      ensures acklist == [] && Probing() == Cleared(ProbeStep(old(Probing()), rmtWnd, current))
      ensures Wire() == PutAll(packer, mtu, old(Wire()), Protocol.ControlSegments(old(View())))
    {
      hide ProbeStep, Put, PutAll;
      ghost var o, acks := Wire(), acklist;
      var t := BLANK.(conv := conv, cmd := CMD_ACK, wnd := unused, una := rcvNxt);
      var seg := FlushAcks(t);
      ProbeWindow();
      ghost var probe := Probing();
      FlushProbes(seg);
      PutAllAppend(packer, mtu, o, Protocol.AckSegments(t, acks), Protocol.ProbeSegments(seg, probe));
    }

    /** Writes out what is left in the buffer. */
    method WriteRest()
      modifies this`buffer, this`output
      ensures Wire() == Finish(packer, old(Wire()))
    {
      if packer.spare(Out(buffer, output)) {
        output := output + [buffer];
        buffer := [];
      }
    }

    /** The data of a flush, and its effect on the congestion window. */
    method FlushWindow(unused: nat)
      requires unused == Protocol.Unused(Rcv()) && SndOk(Snd())
      modifies this`buffer, this`output, this`sndNxt, this`sndQueue, this`sndBuf, this`xmit
      modifies this`cwnd, this`incr, this`ssthresh
      ensures View() == Protocol.DataSent(old(View()))
      ensures Wire() == Deliver(packer, mtu, old(Wire()), Protocol.DataSegments(old(View())))
    {
      hide SndOk, Put, PutAll, VisitAll, Transmitted, Timeouts, AnyDue, OnFlush, Protocol.Admitted, Protocol.PaceOf;
      ghost var e := View();
      var limit := Limit();
      var lost, change := SendDue(limit, unused);
      ghost var e1 := View();
      UpdateWindow(change, lost, if fastresend > 0 then fastresend else U32_LIMIT - 1, limit);
      assert View() == e1.(cc := Window());
      Protocol.PaceResent(e);
    }

    /** Fills the window and transmits what is due. */
    method SendDue(limit: nat, unused: nat) returns (lost: bool, change: bool)
      requires limit == Protocol.WindowLimit(View()) && unused == Protocol.Unused(Rcv()) && SndOk(Snd())
      modifies this`buffer, this`output, this`sndNxt, this`sndQueue, this`sndBuf, this`xmit
      ensures var e := old(View()); var s, p := Protocol.Admitted(e), Protocol.PaceOf(e);
              && View() == e.(snd := s.(buf := VisitAll(s.buf, p)), xmit := e.xmit + Timeouts(s.buf, p))
              && s.una <= s.nxt
              && lost == AnyDue(s.buf, p, Timeout) && change == AnyDue(s.buf, p, Fast)
      ensures Wire() == Deliver(packer, mtu, old(Wire()), Protocol.DataSegments(old(View())))
    {
      hide SndOk, Put, PutAll, VisitAll, Transmitted, Timeouts, AnyDue, Protocol.Admitted;
      ghost var e := View();
      FillWindow(limit, unused);
      ghost var e1 := View();
      assert e1 == e.(snd := Protocol.Admitted(e));
      lost, change := TransmitDue(unused);
      assert View() == e1.(snd := Snd(), xmit := xmit);
    }

    /** How many segments may be outstanding. */
    method Limit() returns (limit: nat)
      ensures limit == Protocol.WindowLimit(View())
    {
      limit := Min(sndWnd, rmtWnd);
      if !nocwnd {
        limit := Min(cwnd, limit);
      }
    }

    method FillWindow(limit: nat, unused: nat)
      requires limit == Protocol.WindowLimit(View()) && unused == Protocol.Unused(Rcv()) && SndOk(Snd())
      modifies this`sndNxt, this`sndQueue, this`sndBuf
      ensures Snd() == Protocol.Admitted(old(View())) && sndUna <= sndNxt
    {
      hide SndOk, Admit;
      ghost var e := View();
      AdmitKeepsSender(e.snd, limit, Protocol.StampOf(e));
      MoveToBuf(limit, unused);
      Ordered(Snd());
    }

    method TransmitDue(unused: nat) returns (lost: bool, change: bool)
      requires unused == Protocol.Unused(Rcv())
      modifies this`sndBuf, this`xmit, this`buffer, this`output
      ensures var p, b := Protocol.PaceOf(old(View())), old(sndBuf);
              && sndBuf == VisitAll(b, p)
              && xmit == old(xmit) + Timeouts(b, p)
              && lost == AnyDue(b, p, Timeout) && change == AnyDue(b, p, Fast)
              && Wire() == Deliver(packer, mtu, old(Wire()), Transmitted(b, p))
    {
      hide Put, PutAll, VisitAll, Transmitted, Timeouts, AnyDue;
      var resent := if fastresend > 0 then fastresend else U32_LIMIT - 1;
      var rtomin := if nodelay == 0 then rxRto / 8 else 0;
      lost, change := FlushData(unused, resent, rtomin);
      WriteRest();
    }

    static lemma Ordered(s: Sender)
      requires SndOk(s)
      ensures s.una <= s.nxt
    {
    }

    /** Sends acknowledgements, probes and due data, and adapts the congestion window. */
    method Flush()
      requires Valid()
      modifies this
      ensures View() == Protocol.Flush(old(View())) && Valid()
      ensures Wire() == if old(updated) then Deliver(packer, old(mtu), old(Wire()), Protocol.FlushSegments(old(View())))
                        else old(Wire())
    {
      if updated {
        FlushNow();
      }
    }

    method FlushNow()
      requires Valid() && updated
      modifies this
      ensures View() == Protocol.Flush(old(View())) && Valid()
      ensures Wire() == Deliver(packer, old(mtu), old(Wire()), Protocol.FlushSegments(old(View())))
    {
      hide Protocol.Valid, SndOk, Put, PutAll, Protocol.ControlSent, Protocol.DataSent, Protocol.ControlSegments,
        Protocol.DataSegments;
      ghost var e, o := View(), Wire();
      Protocol.FlushKeepsValid(e);
      Protocol.ValidParts(e);
      Protocol.ControlKeepsWindow(e);
      var unused := WndUnused();
      FlushControl(unused);
      ghost var e1 := View();
      assert Snd() == e1.snd && Rcv() == e1.rcv;
      FlushWindow(unused);
      PutAllAppend(packer, mtu, o, Protocol.ControlSegments(e), Protocol.DataSegments(e));
    }

    // ---------- Timer and configuration

    /** Advances the timer; whether a flush is due. */
    method TickTimer(now: u32) returns (due: bool)
      modifies this`current, this`updated, this`tsFlush
      ensures Clk() == Advance(old(Clk()), interval, now).0 && due == Advance(old(Clk()), interval, now).1
    {
      hide TimeDiff, W32;
      current := now;
      if !updated {
        updated := true;
        tsFlush := current;
      }
      var slap := TimeDiff(current, tsFlush);
      if slap >= SLAP_LIMIT || slap < -SLAP_LIMIT {
        tsFlush := current;
        slap := 0;
      }
      due := slap >= 0;
      if slap >= 0 {
        tsFlush := W32(tsFlush + interval);
        if TimeDiff(current, tsFlush) >= 0 {
          tsFlush := W32(current + interval);
        }
      }
    }

    /** Moves the clock to `now` and flushes when the timer has been reached. */
    method Update(now: u32)
      requires Valid()
      modifies this
      ensures View() == Protocol.Update(old(View()), now).0 && Valid()
      ensures Wire() == if Protocol.Tick(old(View()), now).1
                        then Deliver(packer, old(mtu), old(Wire()), Protocol.Update(old(View()), now).1)
                        else old(Wire())
    {
      hide Protocol.Valid, Protocol.Flush, Protocol.FlushSegments, Deliver;
      ghost var e := View();
      Protocol.TickKeepsValid(e, now);
      var due := TickTimer(now);
      assert View() == Protocol.Tick(e, now).0 && due == Protocol.Tick(e, now).1;
      assert Wire() == old(Wire()) && mtu == old(mtu) && updated;
      if due {
        FlushNow();
      }
    }

    method CheckNext(now: u32) returns (wait: nat)
      ensures wait == Check(Clk(), sndBuf, interval, now)
    {
      if !updated {
        return 0;
      }
      var flushAt, packet: int := tsFlush, U32_LIMIT - 1;
      if TimeDiff(now, flushAt) >= SLAP_LIMIT || TimeDiff(now, flushAt) < -SLAP_LIMIT {
        flushAt := now;
      }
      if TimeDiff(now, flushAt) >= 0 {
        return 0;
      }
      var left := TimeDiff(flushAt, now);
      var i := 0;
      assert sndBuf[0..] == sndBuf;
      while i < |sndBuf|
        invariant i <= |sndBuf| && packet > 0
        invariant Soonest(sndBuf, now) == Min(packet, Soonest(sndBuf[i..], now))
      {
        var diff := TimeDiff(sndBuf[i].resendts, now);
        assert sndBuf[i..][1..] == sndBuf[i + 1..];
        if diff <= 0 {
          return 0;
        }
        if diff < packet {
          packet := diff;
        }
        i := i + 1;
      }
      Opposite(now, tsFlush);
      return Min(Min(packet, left), interval);
    }

    /** Negative arguments leave a setting alone. */
    method NoDelay(nodelay: int, interval: int, resend: int, nc: bool)
      requires Valid()
      modifies this`nodelay, this`rxMinrto, this`interval, this`fastresend, this`nocwnd
      ensures Cfg() == Protocol.WithSettings(old(Cfg()), nodelay, interval, resend, nc) && Valid()
    {
      hide Protocol.Valid, Protocol.WithSettings;
      ghost var e := View();
      Protocol.SettingsKeepValid(e, nodelay, interval, resend, nc);
      Configure(nodelay, interval, resend, nc);
      assert View() == e.(cfg := Cfg());
    }

    method Configure(nodelay: int, interval: int, resend: int, nc: bool)
      modifies this`nodelay, this`rxMinrto, this`interval, this`fastresend, this`nocwnd
      ensures Cfg() == Protocol.WithSettings(old(Cfg()), nodelay, interval, resend, nc)
    {
      if nodelay >= 0 {
        this.nodelay := nodelay;
        rxMinrto := if nodelay > 0 then RTO_NDL else RTO_MIN;
      }
      if interval >= 0 {
        this.interval := if interval > 5000 then 5000 else if interval < 10 then 10 else interval;
      }
      if resend >= 0 {
        fastresend := resend;
      }
      nocwnd := nc;
    }

    /** Non-positive arguments leave a setting alone. The invariant survives every change before the first
        arrival, and later any growth of the receive window while the queue is not full. */
    method WndSize(sndwnd: int, rcvwnd: int)
      requires Valid()
      modifies this`sndWnd, this`rcvWnd
      ensures sndWnd == if sndwnd > 0 then sndwnd else old(sndWnd)
      ensures rcvWnd == if rcvwnd > 0 then rcvwnd else old(rcvWnd)
      ensures || (rcvQueue == [] && rcvBuf == [])
              || rcvWnd == old(rcvWnd)
              || (rcvWnd > old(rcvWnd) && |rcvQueue| < old(rcvWnd))
              ==> Valid()
    {
      if sndwnd > 0 {
        sndWnd := sndwnd;
      }
      if rcvwnd > 0 {
        rcvWnd := rcvwnd;
      }
    }
  }
}
