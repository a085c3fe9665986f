/** `input` on whole datagrams: when reading the bytes of a datagram is the same as handling its segments. */
module Datagram {
  import opened Machine
  import opened Wire
  import opened SendWindow
  import opened ReceiveWindow
  import opened CongestionWindow
  import opened Protocol

  /** The receiver reads this segment's payload, or there is none to read. */
  predicate PayloadConsumed(e: Endpoint, g: Segment) {
    g.data == [] || (g.cmd == CMD_PUSH && InWindow(e.rcv, g.sn))
  }

  /** A segment that `input` accepts: nothing truncated, this connection, a known command. */
  predicate Acceptable(e: Endpoint, g: Segment) {
    Encodable(g) && g.conv == e.cfg.conv && KnownCommand(g.cmd)
  }

  /** At its turn, every segment is acceptable and its payload is consumed. */
  predicate AllConsumed(s: Scan, segs: seq<Segment>)
    decreases |segs|
  {
    segs == [] || (Acceptable(s.e, segs[0]) && PayloadConsumed(s.e, segs[0])
                   && AllConsumed(Handle(s, segs[0]), segs[1..]))
  }

  /** The sender's bookkeeping in a segment does not matter to the receiver. */
  lemma HandleSeesWireOnly(s: Scan, g: Segment)
    ensures Handle(s, OnWire(g)) == Handle(s, g)
  {
  }

  /** The header in front of an encoded segment is accepted, and gives the segment back. */
  lemma FirstSegment(e: Endpoint, g: Segment, rest: seq<byte>)
    requires Acceptable(e, g)
    ensures var b := Encode(g) + rest;
            && |b| >= OVERHEAD && HeaderError(e.cfg.conv, b).None? && SegmentAt(e, b) == OnWire(g)
            && DecodeHeader(b).cmd == g.cmd && DecodeHeader(b).sn == g.sn && DecodeHeader(b).len == |g.data|
            && b[OVERHEAD..] == g.data + rest && b[OVERHEAD + |g.data|..] == rest
  {
    var b := Encode(g) + rest;
    DecodeUndoesEncode(g, rest);
    assert b[OVERHEAD..OVERHEAD + |g.data|] == g.data by {
      assert (g.data + rest)[..|g.data|] == g.data;
    }
    assert b[OVERHEAD + |g.data|..] == rest by {
      assert (g.data + rest)[|g.data|..] == rest;
    }
  }

  /** After a segment the next header is read at the next segment if and only if the payload was empty or the
      segment was a push inside the window. */
  lemma CursorReachesNextSegment(e: Endpoint, g: Segment, rest: seq<byte>)
    requires Acceptable(e, g)
    ensures NextHeader(e, Encode(g) + rest) == |Encode(g)| <==> PayloadConsumed(e, g)
  {
    FirstSegment(e, g, rest);
  }

  lemma {:induction false} LoopUndoesEncode(s: Scan, segs: seq<Segment>)
    requires AllConsumed(s, segs)
    ensures InputLoop(s, EncodeAll(segs)) == (HandleAll(s, segs), Ok([]))
    decreases |segs|
  {
    if segs != [] {
      var g, rest := segs[0], EncodeAll(segs[1..]);
      var b := Encode(g) + rest;
      FirstSegment(s.e, g, rest);
      CursorReachesNextSegment(s.e, g, rest);
      HandleSeesWireOnly(s, g);
      InputLoopUnfold(s, b);
      LoopUndoesEncode(Handle(s, g), segs[1..]);
    }
  }

  lemma EncodeAllLong(segs: seq<Segment>)
    requires segs != []
    ensures |EncodeAll(segs)| >= OVERHEAD
  {
  }

  /** Parsing undoes encoding: `input` on the concatenated encodings of segments is the segment handler folded
      over the list, followed by fast acknowledgement and congestion control, and consumes every byte. */
  lemma InputUndoesEncode(e: Endpoint, segs: seq<Segment>)
    requires e.cfg.mss > 0 && segs != [] && AllConsumed(Scan(e, false, 0), segs)
    ensures Input(e, EncodeAll(segs)) == (InputSegments(e, segs), Ok(|EncodeAll(segs)|))
  {
    hide InputLoop, HandleAll, Conclude, AllConsumed, Encode;
    LoopUndoesEncode(Scan(e, false, 0), segs);
    EncodeAllLong(segs);
  }

  // ---------- Payloads that are not read

  /** A payload that is not read stays in front of the next header: what follows is `input` on the payload. */
  lemma LeftBehind(s: Scan, g: Segment, rest: seq<byte>)
    requires Acceptable(s.e, g) && !PayloadConsumed(s.e, g)
    ensures InputLoop(s, Encode(g) + rest) == InputLoop(Handle(s, g), g.data + rest)
  {
    FirstSegment(s.e, g, rest);
    HandleSeesWireOnly(s, g);
    InputLoopUnfold(s, Encode(g) + rest);
  }

  lemma LeftBehindAlone(e: Endpoint, g: Segment)
    requires Acceptable(e, g) && !PayloadConsumed(e, g)
    ensures var s := Scan(e, false, 0); InputLoop(s, Encode(g)) == InputLoop(Handle(s, g), g.data)
  {
    LeftBehind(Scan(e, false, 0), g, []);
    assert Encode(g) + [] == Encode(g) && g.data + [] == g.data;
  }

  lemma OneHandled(s: Scan, g: Segment)
    ensures HandleAll(s, [g]) == Handle(s, g)
  {
    assert HandleAll(s, [g]) == HandleAll(Handle(s, g), []);
  }

  /** A single segment whose payload is not read and is shorter than a header is handled all the same; the
      payload is reported as unread. */
  lemma ShortPayloadIsHarmless(e: Endpoint, g: Segment)
    requires e.cfg.mss > 0 && Acceptable(e, g) && !PayloadConsumed(e, g) && |g.data| < OVERHEAD
    ensures Input(e, Encode(g)) == (InputSegments(e, [g]), Ok(OVERHEAD))
  {
    LeftBehindAlone(e, g);
    InputLoopUnfold(Handle(Scan(e, false, 0), g), g.data);
    OneHandled(Scan(e, false, 0), g);
  }

  /** A longer payload that is not read is taken for a header. When that header is refused, `input` reports the
      error, and fast acknowledgement and congestion control are skipped, although the segment itself has been
      handled. So `input` does not undo `encode` on a repeated segment. */
  lemma LongPayloadIsMistaken(e: Endpoint, g: Segment)
    requires e.cfg.mss > 0 && Acceptable(e, g) && !PayloadConsumed(e, g) && |g.data| >= OVERHEAD
    requires HeaderError(e.cfg.conv, g.data).Some?
    ensures Input(e, Encode(g)) == (Handle(Scan(e, false, 0), g).e, Err(HeaderError(e.cfg.conv, g.data).value))
  {
    LeftBehindAlone(e, g);
    InputLoopUnfold(Handle(Scan(e, false, 0), g), g.data);
  }

  /** When that header is accepted, the payload is taken in as a segment that nobody sent, and the loop goes on
      behind it. */
  lemma PayloadIsTakenForSegment(e: Endpoint, g: Segment)
    requires Acceptable(e, g) && !PayloadConsumed(e, g) && |g.data| >= OVERHEAD
    requires HeaderError(e.cfg.conv, g.data).None?
    ensures var s := Handle(Scan(e, false, 0), g);
            s.e.cfg == e.cfg &&
            InputLoop(Scan(e, false, 0), Encode(g))
            == InputLoop(Handle(s, SegmentAt(s.e, g.data)), g.data[NextHeader(s.e, g.data)..])
  {
    LeftBehindAlone(e, g);
    HandleKeepsConfig(Scan(e, false, 0), g);
    InputLoopUnfold(Handle(Scan(e, false, 0), g), g.data);
  }

  lemma HandleKeepsConfig(s: Scan, g: Segment)
    ensures Handle(s, g).e.cfg == s.e.cfg
  {
  }

  /** What exactly is lost by that when a push arrives again: the growth of the congestion window, when the push
      acknowledges new data. */
  lemma RepeatSkipsGrowth(e: Endpoint, g: Segment)
    requires e.cfg.mss > 0 && Acceptable(e, g) && g.cmd == CMD_PUSH && !PayloadConsumed(e, g)
    requires |g.data| >= OVERHEAD && HeaderError(e.cfg.conv, g.data).Some?
    ensures var full, had := InputSegments(e, [g]), Input(e, Encode(g)).0;
            && had == full.(cc := e.cc)
            && full.snd == TakeUna(e.snd, g.una)
            && full.cc == if full.snd.una > e.snd.una then OnAdvance(e.cc, g.wnd, e.cfg.mss) else e.cc
  {
    hide OnAdvance, TakeUna, TakeData, Encode, DecodeHeader;
    LongPayloadIsMistaken(e, g);
    OneHandled(Scan(e, false, 0), g);
  }

  /** The simplest case: an endpoint that has received segment 0 receives it again, with news about its own
      segment 0, and its congestion window does not grow. */
  lemma RepeatedSegmentFails()
    ensures var e, g := RepeatReceiver(), RepeatedPush();
            && Valid(e) && Input(e, Encode(g)).1 == Err(InvalidData)
            && InputSegments(e, [g]).cc.cwnd == 2 && Input(e, Encode(g)).0.cc.cwnd == 1
  {
    hide Input, InputSegments, Encode, TakeUna;
    var e, g := RepeatReceiver(), RepeatedPush();
    RepeatReceiverIsValid();
    RepeatedIsUnread();
    RepeatSkipsGrowth(e, g);
    LongPayloadIsMistaken(e, g);
    UnaIsAcknowledged(e.snd, 1);
  }

  function RepeatReceiver(): Endpoint {
    var own := BLANK.(conv := 7, cmd := CMD_PUSH, xmit := 1, data := [1]);
    Fresh(7).(rcv := Receiver(1, WND_RCV, [], []), snd := Sender(0, 1, [], [own]),
              cc := Congestion(1, MTU_DEF - OVERHEAD, 2))
  }

  function RepeatedPush(): Segment {
    BLANK.(conv := 7, cmd := CMD_PUSH, wnd := 32, una := 1, data := seq(OVERHEAD, i => 0))
  }

  lemma RepeatReceiverIsValid()
    ensures Valid(RepeatReceiver())
  {
    hide HeaderError, Input, Flush, KeepFrom, Drain, Encode;
    var e := RepeatReceiver();
    assert |e.snd.buf| == 1 && e.snd.buf[0].sn == 0;
  }

  lemma RepeatedIsUnread()
    ensures var e, g := RepeatReceiver(), RepeatedPush();
            Acceptable(e, g) && !PayloadConsumed(e, g) && HeaderError(7, g.data) == Some(InvalidData)
  {
    hide HeaderError, DecodeHeader, ReadLe32, Input, Flush, KeepFrom, Drain, Encode;
    var data := RepeatedPush().data;
    ReadsZero(data);
    WrongNumber(7, data);
  }

  lemma ReadsZero(b: seq<byte>)
    requires |b| >= 4 && forall i :: 0 <= i < 4 ==> b[i] == 0
    ensures ReadLe32(b) == 0
  {
  }

  /** A header with the number of another connection is refused. */
  lemma WrongNumber(conv: u32, b: seq<byte>)
    requires |b| >= OVERHEAD && ReadLe32(b) != conv
    ensures HeaderError(conv, b) == Some(InvalidData)
  {
  }

  // ---------- Any datagram of segments

  /** `input` goes no further at these bytes. */
  predicate Stops(conv: u32, b: seq<byte>) {
    |b| < OVERHEAD || HeaderError(conv, b).Some?
  }

  /** No payload, together with what follows it in the datagram, is taken for a segment. */
  predicate Unmistakable(conv: u32, segs: seq<Segment>)
    decreases |segs|
  {
    segs == [] ||
    ((segs[0].data == [] || Stops(conv, segs[0].data + EncodeAll(segs[1..]))) && Unmistakable(conv, segs[1..]))
  }

  lemma {:induction false} LoopTakesPrefix(s: Scan, segs: seq<Segment>) returns (k: nat)
    requires (forall g :: g in segs ==> Acceptable(s.e, g)) && Unmistakable(s.e.cfg.conv, segs)
    ensures k <= |segs| && InputLoop(s, EncodeAll(segs)).0 == HandleAll(s, segs[..k])
    decreases |segs|
  {
    hide Handle, Encode, Stops, Acceptable, InputLoop, KnownCommand;
    if segs == [] {
      InputLoopUnfold(s, []);
      k := 0;
    } else {
      var g, rest := segs[0], EncodeAll(segs[1..]);
      HandleKeepsConfig(s, g);
      AcceptableAfter(s, g, segs[1..]);
      if PayloadConsumed(s.e, g) {
        ReadAndGoOn(s, g, rest);
        var n := LoopTakesPrefix(Handle(s, g), segs[1..]);
        k := n + 1;
        assert segs[..k][0] == g && segs[..k][1..] == segs[1..][..n];
      } else {
        StopsBehind(s, g, rest);
        OneHandled(s, g);
        k := 1;
        assert segs[..1] == [g];
      }
    }
  }

  lemma AcceptableAfter(s: Scan, g: Segment, segs: seq<Segment>)
    requires forall x :: x in segs ==> Acceptable(s.e, x)
    ensures forall x :: x in segs ==> Acceptable(Handle(s, g).e, x)
  {
    HandleKeepsConfig(s, g);
  }

  lemma ReadAndGoOn(s: Scan, g: Segment, rest: seq<byte>)
    requires Acceptable(s.e, g) && PayloadConsumed(s.e, g)
    ensures InputLoop(s, Encode(g) + rest) == InputLoop(Handle(s, g), rest)
  {
    hide Handle, InputLoop;
    FirstSegment(s.e, g, rest);
    CursorReachesNextSegment(s.e, g, rest);
    HandleSeesWireOnly(s, g);
    InputLoopUnfold(s, Encode(g) + rest);
  }

  lemma StopsBehind(s: Scan, g: Segment, rest: seq<byte>)
    requires Acceptable(s.e, g) && !PayloadConsumed(s.e, g) && Stops(s.e.cfg.conv, g.data + rest)
    ensures InputLoop(s, Encode(g) + rest).0 == Handle(s, g)
  {
    hide Handle, InputLoop;
    LeftBehind(s, g, rest);
    HandleKeepsConfig(s, g);
    InputLoopUnfold(Handle(s, g), g.data + rest);
  }

  /** Any datagram: when no payload can be taken for a segment, `input` handles segments from the front, whether it
      reads each payload or not, and comes to its end or stops with an error behind the last of them. */
  lemma ArrivalIsPrefix(e: Endpoint, segs: seq<Segment>) returns (k: nat, whole: bool)
    requires e.cfg.mss > 0 && (forall g :: g in segs ==> Acceptable(e, g)) && Unmistakable(e.cfg.conv, segs)
    ensures k <= |segs| && Input(e, EncodeAll(segs)).0 == TakeIn(e, segs[..k], whole)
  {
    hide InputLoop, HandleAll, Conclude, Unmistakable, Encode, Acceptable;
    var s, b := Scan(e, false, 0), EncodeAll(segs);
    k := LoopTakesPrefix(s, segs);
    whole := |b| >= OVERHEAD && InputLoop(s, b).1.Ok?;
    if |b| < OVERHEAD {
      InputLoopUnfold(s, b);
    }
  }

  /** How far `input` gets with a single segment: to its end, unless an unread payload is long enough to be taken
      for a header. */
  predicate ReachesEnd(e: Endpoint, g: Segment) {
    PayloadConsumed(e, g) || |g.data| < OVERHEAD
  }

  /** A segment by itself is always handled, and followed by fast acknowledgement and congestion control if and only
      if its payload was read or is shorter than a header. */
  lemma SingleArrives(e: Endpoint, g: Segment)
    requires e.cfg.mss > 0 && Acceptable(e, g) && (g.data == [] || Stops(e.cfg.conv, g.data))
    ensures Input(e, Encode(g)).0 == TakeIn(e, [g], ReachesEnd(e, g))
    ensures Input(e, Encode(g)).1.Ok? <==> ReachesEnd(e, g)
  {
    hide InputLoop, HandleAll, Handle, Conclude, Encode;
    var s := Scan(e, false, 0);
    OneHandled(s, g);
    if PayloadConsumed(e, g) {
      assert EncodeAll([g]) == Encode(g) by { assert EncodeAll([g]) == Encode(g) + []; }
      assert AllConsumed(s, [g]) by { assert AllConsumed(Handle(s, g), []); }
      InputUndoesEncode(e, [g]);
    } else if |g.data| < OVERHEAD {
      ShortPayloadIsHarmless(e, g);
    } else {
      LongPayloadIsMistaken(e, g);
    }
  }
}
