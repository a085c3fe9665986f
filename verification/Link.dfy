/** One direction of a connection: the sending half of one endpoint, the receiving half of the other, and every
    segment either side has ever handed to the network. */
module Link {
  import opened Machine
  import opened Wire
  import opened Message
  import opened SendWindow
  import opened ReceiveWindow
  import opened Retransmission
  import opened Protocol

  /** `s` sends to `r`; `acks` are owed by the receiving side; `fwd` and `back` hold everything ever sent by the
      sending and the receiving side; `sent` and `got` are the messages accepted from and returned to the
      applications. */
  datatype Link = Link(mss: nat, s: Sender, r: Receiver, acks: seq<Ack>, fwd: set<Segment>, back: set<Segment>,
                       sent: seq<seq<byte>>, got: seq<seq<byte>>)

  // ---------- The invariant

  /** `g` carries the fragment of its number, and the number has been given out. */
  predicate Genuine(g: Segment, limit: nat, all: seq<Piece>) {
    g.cmd == CMD_PUSH && g.sn < limit <= |all| && PieceOf(g) == all[g.sn]
  }

  ghost predicate AllGenuine(gs: seq<Segment>, limit: nat, all: seq<Piece>) {
    forall g :: g in gs ==> Genuine(g, limit, all)
  }

  /** The window holds genuine segments; the queue holds the fragments that have no number yet. */
  ghost predicate Source(s: Sender, all: seq<Piece>) {
    && SndOk(s) && s.nxt <= |all| && Pieces(s.queue) == all[s.nxt..]
    && AllGenuine(s.buf, s.nxt, all)
  }

  /** The receiver holds genuine segments only. */
  ghost predicate Sink(r: Receiver, limit: nat, all: seq<Piece>) {
    && RcvOk(r) && r.nxt <= limit <= |all|
    && AllGenuine(r.queue, limit, all) && AllGenuine(r.buf, limit, all)
  }

  /** Every data segment on its way is genuine. */
  ghost predicate Forward(fwd: set<Segment>, limit: nat, all: seq<Piece>) {
    forall p :: p in fwd && p.cmd == CMD_PUSH ==> Genuine(p, limit, all)
  }

  /** Every acknowledgement, owed or on its way, however old, names data that has been received. */
  ghost predicate Truthful(r: Receiver, acks: seq<Ack>, back: set<Segment>) {
    && (forall k :: k in acks ==> Received(r, k.sn))
    && (forall p :: p in back ==> p.una <= r.nxt && (p.cmd == CMD_ACK ==> Received(r, p.sn)))
  }

  /** Every number given out is still in the send window or has been received. */
  ghost predicate NothingLost(s: Sender, r: Receiver) {
    forall n: nat :: n < s.nxt ==> HasSn(s.buf, n) || Received(r, n)
  }

  predicate Copied(fwd: set<Segment>, sn: nat) {
    exists p :: p in fwd && p.cmd == CMD_PUSH && p.sn == sn
  }

  /** A copy of every segment in the send window has been handed to the network. */
  ghost predicate AllCopied(s: Sender, fwd: set<Segment>) {
    forall g :: g in s.buf ==> g.xmit >= 1 && Copied(fwd, g.sn)
  }

  /** The messages returned are the first ones accepted, and account for everything before the queue. */
  ghost predicate InOrder(mss: nat, r: Receiver, sent: seq<seq<byte>>, got: seq<seq<byte>>)
    requires mss > 0
  {
    got <= sent && |Stream(mss, got)| == Base(r)
  }

  ghost predicate Good(l: Link) {
    && l.mss > 0 && AllSendable(l.mss, l.sent)
    && (var all := Stream(l.mss, l.sent);
        && Source(l.s, all) && Sink(l.r, l.s.nxt, all) && Forward(l.fwd, l.s.nxt, all))
    && Truthful(l.r, l.acks, l.back)
    && NothingLost(l.s, l.r) && AllCopied(l.s, l.fwd)
    && InOrder(l.mss, l.r, l.sent, l.got)
  }

  // ---------- Sending a message

  lemma WrapPieces(ps: seq<Piece>)
    requires forall i :: 0 <= i < |ps| ==> ps[i].frg < 0x100
    ensures Pieces(WrapAll(ps)) == ps
  {
  }

  lemma FragmentsFitByte(mss: nat, msg: seq<byte>)
    requires mss > 0 && Sendable(mss, msg)
    ensures Pieces(WrapAll(Fragment(mss, msg))) == Fragment(mss, msg)
  {
    var f := Fragment(mss, msg);
    forall i | 0 <= i < |f| ensures f[i].frg < 0x100 {
      FragmentShape(mss, msg, i);
    }
    WrapPieces(f);
  }

  lemma QueueIsFree(s: Sender, q: seq<Segment>)
    requires SndOk(s)
    ensures SndOk(s.(queue := q))
  {
  }

  lemma SendKeeps(l: Link, msg: seq<byte>)
    requires Good(l) && Sendable(l.mss, msg)
    ensures Good(l.(s := l.s.(queue := l.s.queue + WrapAll(Fragment(l.mss, msg))), sent := l.sent + [msg]))
  {
    hide SndOk, RcvOk, Fragment;
    QueueIsFree(l.s, l.s.queue + WrapAll(Fragment(l.mss, msg)));
    var f := Fragment(l.mss, msg);
    var all := Stream(l.mss, l.sent);
    StreamSnoc(l.mss, l.sent, msg);
    FragmentsFitByte(l.mss, msg);
    PiecesAppend(l.s.queue, WrapAll(f));
    assert (all + f)[l.s.nxt..] == all[l.s.nxt..] + f;
  }

  // ---------- Reading a message

  lemma QueuePieces(r: Receiver, limit: nat, all: seq<Piece>)
    requires Sink(r, limit, all)
    ensures 0 <= Base(r) && Pieces(r.queue) == all[Base(r)..r.nxt]
  {
    forall i | 0 <= i < |r.queue| ensures Pieces(r.queue)[i] == all[Base(r)..r.nxt][i] {
      assert r.queue[i] in r.queue;
    }
  }

  /** What is left of the stream after the messages returned begins with the next message accepted. */
  lemma Remaining(mss: nat, sent: seq<seq<byte>>, k: nat)
    requires mss > 0 && k <= |sent|
    ensures var all, done := Stream(mss, sent), |Stream(mss, sent[..k])|;
            && done <= |all| && all[done..] == Stream(mss, sent[k..])
            && (k < |sent| ==> all[done..] == Fragment(mss, sent[k]) + Stream(mss, sent[k + 1..]))
  {
    assert sent == sent[..k] + sent[k..];
    StreamAppend(mss, sent[..k], sent[k..]);
    if k < |sent| {
      assert sent[k..][0] == sent[k] && sent[k..][1..] == sent[k + 1..];
    }
  }

  /** The queue begins at a message boundary, with the next message to return. It is announced exactly when all
      its fragments are queued, and then it is the message read. */
  lemma FrontMessage(l: Link)
    requires Good(l)
    ensures l.r.queue != [] ==> |l.got| < |l.sent|
    ensures |l.got| < |l.sent| ==>
              var msg, q := l.sent[|l.got|], Pieces(l.r.queue);
              var n := Count(l.mss, |msg|);
              && (|q| >= n ==> PeekSize(q) == Some(|msg|) && Span(q) == n && NextMessage(l.r.queue) == msg)
              && (|q| < n ==> PeekSize(q).None?)
    ensures l.r.queue == [] ==> PeekSize(Pieces(l.r.queue)).None?
  {
    var all, q, k := Stream(l.mss, l.sent), Pieces(l.r.queue), |l.got|;
    assert l.sent[..k] == l.got;
    Remaining(l.mss, l.sent, k);
    QueuePieces(l.r, l.s.nxt, all);
    assert q == all[Base(l.r)..][..|q|];
    if k < |l.sent| {
      var f, rest := Fragment(l.mss, l.sent[k]), Stream(l.mss, l.sent[k + 1..]);
      FragmentShape(l.mss, l.sent[k], 0);
      if |q| >= |f| {
        assert q == f + rest[..|q| - |f|];
        ReassembleUndoesFragment(l.mss, l.sent[k], rest[..|q| - |f|]);
      } else {
        assert q == f[..|q|];
        IncompleteIsNotAnnounced(l.mss, l.sent[k], |q|);
      }
    } else {
      assert l.sent[k..] == [];
    }
  }

  lemma TakeKeepsSink(r: Receiver, limit: nat, all: seq<Piece>, n: nat)
    requires Sink(r, limit, all) && n <= |r.queue|
    ensures Sink(Take(r, n), limit, all)
  {
    var m, r' := r.(queue := r.queue[n..]), Take(r, n);
    TakeMeaning(r, n);
    forall g | Holds(r', g) ensures Genuine(g, limit, all) {
      DrainMembers(m, g);
    }
    NextIsGivenOut(r, r', limit, all);
  }

  lemma NextIsGivenOut(r: Receiver, r': Receiver, limit: nat, all: seq<Piece>)
    requires RcvOk(r') && r.nxt <= limit && r'.nxt >= r.nxt >= Base(r') && AllGenuine(r'.queue, limit, all)
    ensures r'.nxt <= limit
  {
    if r'.nxt > r.nxt {
      assert r'.queue[|r'.queue| - 1] in r'.queue;
    }
  }

  lemma TakeKeepsTruthful(r: Receiver, acks: seq<Ack>, back: set<Segment>, n: nat)
    requires RcvOk(r) && n <= |r.queue| && Truthful(r, acks, back)
    ensures Truthful(Take(r, n), acks, back)
  {
    TakeMeaning(r, n);
    forall k | k in acks ensures Received(Take(r, n), k.sn) {
      TakeKeepsReceived(r, n, k.sn);
    }
    forall p | p in back ensures p.una <= Take(r, n).nxt && (p.cmd == CMD_ACK ==> Received(Take(r, n), p.sn)) {
      TakeKeepsReceived(r, n, p.sn);
    }
  }

  /** Reading returns the next message accepted, and keeps the invariant. */
  lemma RecvKeeps(l: Link)
    requires Good(l) && PeekSize(Pieces(l.r.queue)).Some?
    ensures var n := Span(Pieces(l.r.queue));
            Good(l.(r := Take(l.r, n), got := l.got + [NextMessage(l.r.queue)]))
  {
    var n := Span(Pieces(l.r.queue));
    var r' := Take(l.r, n);
    var all := Stream(l.mss, l.sent);
    FrontMessage(l);
    var msg := l.sent[|l.got|];
    FragmentShape(l.mss, msg, 0);
    StreamSnoc(l.mss, l.got, msg);
    TakeMeaning(l.r, n);
    TakeKeepsSink(l.r, l.s.nxt, all, n);
    TakeKeepsTruthful(l.r, l.acks, l.back, n);
    forall k: nat | k < l.s.nxt ensures HasSn(l.s.buf, k) || Received(r', k) {
      TakeKeepsReceived(l.r, n, k);
    }
  }

  // ---------- Acknowledgements at the sender

  /** Removing from the window what has been received keeps the invariant. */
  lemma RemovalKeeps(l: Link, s': Sender)
    requires Good(l) && SndOk(s') && s'.nxt == l.s.nxt && s'.queue == l.s.queue
    requires forall g :: g in s'.buf ==> g in l.s.buf
    requires forall g :: g in l.s.buf && g !in s'.buf ==> Received(l.r, g.sn)
    ensures Good(l.(s := s'))
  {
    forall n: nat | n < s'.nxt ensures HasSn(s'.buf, n) || Received(l.r, n) {
      if HasSn(l.s.buf, n) {
        var g :| g in l.s.buf && g.sn == n;
      }
    }
  }

  lemma UnaKeeps(l: Link, p: Segment)
    requires Good(l) && p in l.back
    ensures Good(l.(s := TakeUna(l.s, p.una)))
  {
    AcksKeepSender(l.s, p.una, 0);
    UnaIsAcknowledged(l.s, p.una);
    RemovalKeeps(l, TakeUna(l.s, p.una));
  }

  lemma AckKeeps(l: Link, p: Segment)
    requires Good(l) && p in l.back && p.cmd == CMD_ACK
    ensures Good(l.(s := TakeAck(l.s, p.sn)))
  {
    AcksKeepSender(l.s, 0, p.sn);
    AckRemovesOne(l.s, p.sn);
    RemovalKeeps(l, TakeAck(l.s, p.sn));
  }

  lemma FastackKeeps(l: Link, sn: nat)
    requires Good(l)
    ensures Good(l.(s := TakeFastack(l.s, sn)))
  {
    var s' := TakeFastack(l.s, sn);
    FastackKeepsSender(l.s, sn);
    SameShapeKeeps(l, s', l.fwd);
  }

  /** Changing the bookkeeping of the window segment by segment keeps the invariant. */
  lemma SameShapeKeeps(l: Link, s': Sender, fwd': set<Segment>)
    requires Good(l) && SndOk(s') && s'.nxt == l.s.nxt && s'.queue == l.s.queue && |s'.buf| == |l.s.buf|
    requires forall i :: 0 <= i < |s'.buf| ==>
               && s'.buf[i].sn == l.s.buf[i].sn && PieceOf(s'.buf[i]) == PieceOf(l.s.buf[i])
               && s'.buf[i].cmd == l.s.buf[i].cmd && s'.buf[i].xmit >= l.s.buf[i].xmit
    requires l.fwd <= fwd' && Forward(fwd', l.s.nxt, Stream(l.mss, l.sent))
    ensures Good(l.(s := s', fwd := fwd'))
  {
    var all := Stream(l.mss, l.sent);
    forall g | g in s'.buf ensures Genuine(g, s'.nxt, all) && g.xmit >= 1 && Copied(fwd', g.sn) {
      var i :| 0 <= i < |s'.buf| && s'.buf[i] == g;
      assert l.s.buf[i] in l.s.buf;
      var p :| p in l.fwd && p.cmd == CMD_PUSH && p.sn == g.sn;
      assert p in fwd';
    }
    forall n: nat | n < s'.nxt ensures HasSn(s'.buf, n) || Received(l.r, n) {
      if HasSn(l.s.buf, n) {
        var g :| g in l.s.buf && g.sn == n;
        var i :| 0 <= i < |l.s.buf| && l.s.buf[i] == g;
        assert s'.buf[i] in s'.buf;
      }
    }
  }

  // ---------- Data at the receiver

  lemma OnWireIsGenuine(p: Segment, limit: nat, all: seq<Piece>)
    requires Genuine(p, limit, all)
    ensures Genuine(OnWire(p), limit, all)
  {
  }

  lemma PushKeepsSink(r: Receiver, limit: nat, all: seq<Piece>, g: Segment)
    requires Sink(r, limit, all) && Genuine(g, limit, all)
    ensures Sink(TakeData(r, g), limit, all)
  {
    var r' := TakeData(r, g);
    TakeDataKeepsReceiver(r, g);
    forall s | Holds(r', s) ensures Genuine(s, limit, all) {
      TakeDataMembers(r, g, s);
    }
    NextIsGivenOut(r, r', limit, all);
  }

  lemma PushKeepsTruthful(r: Receiver, acks: seq<Ack>, back: set<Segment>, g: Segment, ts: u32)
    requires RcvOk(r) && Truthful(r, acks, back) && g.sn < r.nxt + r.wnd
    ensures Truthful(TakeData(r, g), acks + [Ack(g.sn, ts)], back)
  {
    var r' := TakeData(r, g);
    TakeDataKeepsReceiver(r, g);
    forall k | k in acks + [Ack(g.sn, ts)] ensures Received(r', k.sn) {
      TakeDataReceives(r, g, k.sn);
    }
    forall p | p in back ensures p.una <= r'.nxt && (p.cmd == CMD_ACK ==> Received(r', p.sn)) {
      TakeDataReceives(r, g, p.sn);
    }
  }

  /** Taking in any data segment ever sent keeps the invariant. */
  lemma PushKeeps(l: Link, p: Segment)
    requires Good(l) && p in l.fwd && p.cmd == CMD_PUSH && p.sn < l.r.nxt + l.r.wnd
    ensures Good(l.(r := TakeData(l.r, OnWire(p)), acks := l.acks + [Ack(p.sn, p.ts)]))
  {
    var g, all := OnWire(p), Stream(l.mss, l.sent);
    OnWireIsGenuine(p, l.s.nxt, all);
    PushKeepsSink(l.r, l.s.nxt, all, g);
    PushKeepsTruthful(l.r, l.acks, l.back, g, p.ts);
    TakeDataKeepsReceiver(l.r, g);
    forall n: nat | n < l.s.nxt ensures HasSn(l.s.buf, n) || Received(TakeData(l.r, g), n) {
      TakeDataReceives(l.r, g, n);
    }
  }

  // ---------- Flush

  /** The receiving side of a flush: every segment it hands out carries the next number expected, and every
      acknowledgement one that was owed. */
  lemma AckFlushKeeps(l: Link, out: set<Segment>)
    requires Good(l)
    requires forall p :: p in out ==> p.una == l.r.nxt
    requires forall p :: p in out && p.cmd == CMD_ACK ==> exists k :: k in l.acks && k.sn == p.sn
    ensures Good(l.(acks := [], back := l.back + out))
  {
  }

  lemma AdmittedIsGenuine(s: Sender, limit: nat, t: Stamp, all: seq<Piece>)
    requires Source(s, all)
    ensures Source(Admit(s, limit, t), all)
  {
    hide SndOk, Admit;
    var s' := Admit(s, limit, t);
    AdmitKeepsSender(s, limit, t);
    AdmitShape(s, limit, t);
    var k := s'.nxt - s.nxt;
    assert |Pieces(s.queue)| == |s.queue|;
    assert Pieces(s'.queue) == Pieces(s.queue)[k..];
    forall g | g in s'.buf ensures Genuine(g, s'.nxt, all) {
      if g !in s.buf {
        NewIsGenuine(s.queue, k, s.nxt, t, all, g);
      }
    }
  }

  lemma NewIsGenuine(q: seq<Segment>, k: nat, nxt: nat, t: Stamp, all: seq<Piece>, g: Segment)
    requires k <= |q| && nxt <= |all| && Pieces(q) == all[nxt..] && g in AdmittedRun(q[..k], nxt, t)
    ensures Genuine(g, nxt + k, all)
  {
    var run := AdmittedRun(q[..k], nxt, t);
    assert |Pieces(q)| == |q|;
    var i :| 0 <= i < |run| && run[i] == g;
    assert Pieces(q)[i] == all[nxt..][i];
  }

  /** Filling the window. New segments have not been transmitted yet. */
  lemma AdmitKeeps(l: Link, limit: nat, t: Stamp)
    requires Good(l)
    ensures var s' := Admit(l.s, limit, t); var all := Stream(l.mss, l.sent);
            && Source(s', all) && Sink(l.r, s'.nxt, all) && Forward(l.fwd, s'.nxt, all)
            && NothingLost(s', l.r)
            && (forall g :: g in s'.buf ==> (g.xmit >= 1 && Copied(l.fwd, g.sn)) || g.xmit == 0)
  {
    hide SndOk, RcvOk, Admit;
    var s' := Admit(l.s, limit, t);
    var all := Stream(l.mss, l.sent);
    AdmittedIsGenuine(l.s, limit, t, all);
    AdmitKeepsSender(l.s, limit, t);
    AdmitShape(l.s, limit, t);
    var k := s'.nxt - l.s.nxt;
    var run := AdmittedRun(l.s.queue[..k], l.s.nxt, t);
    forall n: nat | n < s'.nxt ensures HasSn(s'.buf, n) || Received(l.r, n) {
      if n >= l.s.nxt {
        assert run[n - l.s.nxt].sn == n && run[n - l.s.nxt] in s'.buf;
      } else if HasSn(l.s.buf, n) {
        var g :| g in l.s.buf && g.sn == n;
        assert g in s'.buf;
      }
    }
  }

  /** The sending side of a flush: the window is filled, and what is due is handed out. */
  lemma DataFlushKeeps(l: Link, limit: nat, t: Stamp, p: Pace, out: set<Segment>)
    requires Good(l)
    requires var b := Admit(l.s, limit, t).buf;
             && (forall x :: x in Transmitted(b, p) ==> x in out)
             && (forall x :: x in out && x.cmd == CMD_PUSH ==> x in Transmitted(b, p))
    ensures var s := Admit(l.s, limit, t);
            Good(l.(s := s.(buf := VisitAll(s.buf, p)), fwd := l.fwd + out))
  {
    hide SndOk, RcvOk, Admit, Transmitted, Visit;
    var s, all := Admit(l.s, limit, t), Stream(l.mss, l.sent);
    var s', fwd' := s.(buf := VisitAll(s.buf, p)), l.fwd + out;
    AdmitKeeps(l, limit, t);
    VisitAllKeepsSender(s, p);
    forall i | 0 <= i < |s'.buf|
      ensures Genuine(s'.buf[i], s'.nxt, all) && s'.buf[i].xmit >= 1 && Copied(fwd', s'.buf[i].sn)
      ensures s'.buf[i].sn == s.buf[i].sn
    {
      VisitedIsCopied(l, s, p, out, i);
    }
    forall x | x in fwd' && x.cmd == CMD_PUSH ensures Genuine(x, s'.nxt, all) {
      if x in out {
        TransmittedIsGenuine(s, p, all, x);
      }
    }
    forall n: nat | n < s'.nxt ensures HasSn(s'.buf, n) || Received(l.r, n) {
      if HasSn(s.buf, n) {
        var g :| g in s.buf && g.sn == n;
        var i :| 0 <= i < |s.buf| && s.buf[i] == g;
        assert s'.buf[i] in s'.buf;
      }
    }
  }

  lemma VisitedIsCopied(l: Link, s: Sender, p: Pace, out: set<Segment>, i: nat)
    requires l.mss > 0 && i < |s.buf| && AllGenuine(s.buf, s.nxt, Stream(l.mss, l.sent))
    requires forall g :: g in s.buf ==> (g.xmit >= 1 && Copied(l.fwd, g.sn)) || g.xmit == 0
    requires forall x :: x in Transmitted(s.buf, p) ==> x in out
    ensures var v := VisitAll(s.buf, p)[i];
            && Genuine(v, s.nxt, Stream(l.mss, l.sent)) && v.sn == s.buf[i].sn
            && v.xmit >= 1 && Copied(l.fwd + out, v.sn)
  {
    var g, v := s.buf[i], VisitAll(s.buf, p)[i];
    assert g in s.buf;
    VisitKeepsShape(s.buf, p, i);
    if DueOf(g, p) != NotDue {
      TransmittedMembers(s.buf, p, v);
      assert v in l.fwd + out && v.cmd == CMD_PUSH;
    } else {
      var c :| c in l.fwd && c.cmd == CMD_PUSH && c.sn == g.sn;
      assert c in l.fwd + out;
    }
  }

  lemma TransmittedIsGenuine(s: Sender, p: Pace, all: seq<Piece>, x: Segment)
    requires AllGenuine(s.buf, s.nxt, all) && x in Transmitted(s.buf, p)
    ensures Genuine(x, s.nxt, all)
  {
    TransmittedMembers(s.buf, p, x);
    var g :| g in s.buf && DueOf(g, p) != NotDue && Visit(g, p) == x;
  }

  // ---------- What the invariant gives

  /** The windows of the two ends stay coupled. */
  lemma WindowsCoupled(l: Link)
    requires Good(l)
    ensures l.r.nxt <= l.s.nxt
    ensures l.s.una <= l.r.nxt + l.r.wnd
    ensures |l.r.queue| < l.r.wnd ==> l.s.una <= l.r.nxt
  {
    if l.s.una > 0 {
      AcknowledgedIsReceived(l, l.s.una - 1);
    }
    if l.r.nxt < l.s.una {
      AcknowledgedIsReceived(l, l.r.nxt);
      var g :| g in l.r.buf && g.sn == l.r.nxt;
      assert l.r.buf[0].sn <= g.sn;
    }
  }

  lemma AcknowledgedIsReceived(l: Link, n: nat)
    requires Good(l) && n < l.s.una
    ensures Received(l.r, n) && n < l.r.nxt + l.r.wnd
  {
    NotInWindow(l.s, n);
  }

  lemma NotInWindow(s: Sender, n: nat)
    requires SndOk(s) && n < s.una
    ensures !HasSn(s.buf, n)
  {
  }

  /** The number at the front of the send window: a copy of its segment is on its way. Wherever the receiver's
      window has room for it, taking that copy in owes its acknowledgement, and that acknowledgement moves the
      sender forward. */
  lemma FrontProgress(l: Link)
    requires Good(l) && l.s.buf != []
    ensures Copied(l.fwd, l.s.una)
    ensures TakeAck(l.s, l.s.una).una > l.s.una
  {
    assert l.s.buf[0] in l.s.buf;
    FrontAckAdvances(l.s);
  }
}
