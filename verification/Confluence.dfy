/** The receive path does not depend on the order of arrivals: any sequence of arrivals leaves the receiver in a
    state that is a function of where it started and of the set of numbers that arrived. */
module Confluence {
  import opened Wire
  import opened Message
  import opened SendWindow
  import opened ReceiveWindow

  function TakeAll(r: Receiver, gs: seq<Segment>): Receiver
    decreases |gs|
  {
    if gs == [] then r else TakeAll(TakeData(r, gs[0]), gs[1..])
  }

  function Numbers(gs: seq<Segment>): set<nat> {
    set g | g in gs :: g.sn
  }

  /** Every segment carries the payload that belongs to its number. */
  ghost predicate Carries(gs: seq<Segment>, payload: nat -> Piece) {
    forall g :: g in gs ==> PieceOf(g) == payload(g.sn)
  }

  ghost predicate Below(gs: seq<Segment>, limit: nat) {
    forall g :: g in gs ==> g.sn < limit
  }

  // ---------- The canonical state

  /** The length of the run of consecutive members of `present` from `from` on, up to `room`. */
  function Run(present: set<nat>, from: nat, room: nat): nat
    decreases room
  {
    if room > 0 && from in present then 1 + Run(present, from + 1, room - 1) else 0
  }

  /** The members of `present` in [lo, hi), in order. */
  function Ascending(present: set<nat>, lo: nat, hi: nat): seq<nat>
    decreases hi - lo
  {
    if lo >= hi then [] else (if lo in present then [lo] else []) + Ascending(present, lo + 1, hi)
  }

  function SnsOf(buf: seq<Segment>): (r: seq<nat>)
    ensures |r| == |buf|
  {
    seq(|buf|, i requires 0 <= i < |buf| => buf[i].sn)
  }

  function Consecutive(from: nat, k: nat): (r: seq<nat>)
    ensures |r| == k
  {
    seq(k, i requires 0 <= i < k => from + i)
  }

  function Payloads(ns: seq<nat>, payload: nat -> Piece): (r: seq<Piece>)
    ensures |r| == |ns|
  {
    seq(|ns|, i requires 0 <= i < |ns| => payload(ns[i]))
  }

  /** `r2` is the state that `r1` reaches when the numbers `present` are buffered or have arrived: the run of
      present numbers that fits has moved to the queue with its payload, the rest waits in order. */
  ghost predicate Canonical(r1: Receiver, r2: Receiver, present: set<nat>, payload: nat -> Piece)
    requires |r1.queue| <= r1.wnd
  {
    var run := Consecutive(r1.nxt, Run(present, r1.nxt, r1.wnd - |r1.queue|));
    var waiting := Ascending(present, r1.nxt + |run|, r1.nxt + r1.wnd);
    && r2.nxt == r1.nxt + |run| && r2.wnd == r1.wnd
    && SnsOf(r2.queue) == SnsOf(r1.queue) + run && Pieces(r2.queue) == Pieces(r1.queue) + Payloads(run, payload)
    && SnsOf(r2.buf) == waiting && Pieces(r2.buf) == Payloads(waiting, payload)
  }

  lemma CarriesPayloads(q: seq<Segment>, payload: nat -> Piece)
    requires Carries(q, payload)
    ensures Pieces(q) == Payloads(SnsOf(q), payload)
  {
    forall i | 0 <= i < |q| ensures PieceOf(q[i]) == payload(q[i].sn) {
      assert q[i] in q;
    }
  }

  lemma {:induction false} RunIs(present: set<nat>, from: nat, room: nat, k: nat)
    requires k <= room && (forall n :: from <= n < from + k ==> n in present)
    requires k == room || from + k !in present
    ensures Run(present, from, room) == k
    decreases k
  {
    if k > 0 {
      RunIs(present, from + 1, room - 1, k - 1);
    }
  }

  /** A sorted buffer that holds exactly the present numbers of an interval lists them in order. */
  lemma {:induction false} AscendingIs(buf: seq<Segment>, present: set<nat>, lo: nat, hi: nat)
    requires Sorted(buf)
    requires forall i :: 0 <= i < |buf| ==> lo <= buf[i].sn < hi && buf[i].sn in present
    requires forall n :: lo <= n < hi && n in present ==> HasSn(buf, n)
    ensures SnsOf(buf) == Ascending(present, lo, hi)
    decreases hi - lo
  {
    hide Sorted, HasSn;
    if lo < hi {
      if lo in present {
        FrontIs(buf, lo);
        SortedTail(buf);
        var rest := buf[1..];
        forall n | lo + 1 <= n < hi && n in present ensures HasSn(rest, n) {
          RestHas(buf, n);
        }
        AscendingIs(rest, present, lo + 1, hi);
        assert SnsOf(buf) == [lo] + SnsOf(rest);
      } else {
        AscendingIs(buf, present, lo + 1, hi);
      }
    } else {
      OutOfRange(buf, lo, hi);
    }
  }

  lemma OutOfRange(buf: seq<Segment>, lo: nat, hi: nat)
    requires lo >= hi && (buf != [] ==> lo <= buf[0].sn < hi)
    ensures SnsOf(buf) == []
  {
  }

  lemma FrontIs(buf: seq<Segment>, lo: nat)
    requires Sorted(buf) && HasSn(buf, lo) && forall i :: 0 <= i < |buf| ==> lo <= buf[i].sn
    ensures buf != [] && buf[0].sn == lo
    ensures forall i :: 1 <= i < |buf| ==> lo + 1 <= buf[i].sn
  {
    var s :| s in buf && s.sn == lo;
    assert buf[0].sn <= s.sn;
  }

  lemma RestHas(buf: seq<Segment>, n: nat)
    requires buf != [] && buf[0].sn != n && HasSn(buf, n)
    ensures HasSn(buf[1..], n)
  {
    var t :| t in buf && t.sn == n;
    assert buf == [buf[0]] + buf[1..];
  }

  // ---------- What arrivals leave behind

  /** `r2` comes from `r1` by arrivals with numbers `arrived`. */
  ghost predicate Grown(r1: Receiver, r2: Receiver, arrived: set<nat>, payload: nat -> Piece) {
    && RcvOk(r2) && r2.wnd == r1.wnd && Base(r2) == Base(r1) && r2.nxt >= r1.nxt
    && r1.queue <= r2.queue
    && Carries(r2.queue[|r1.queue|..], payload) && Carries(r2.buf, payload)
    && (forall n: nat :: Received(r2, n) <==> Received(r1, n) || n in arrived)
  }

  lemma TakeDataExtendsQueue(r: Receiver, g: Segment, payload: nat -> Piece)
    requires RcvOk(r) && Carries(r.buf, payload) && PieceOf(g) == payload(g.sn)
    ensures var r' := TakeData(r, g);
            r.queue <= r'.queue && Carries(r'.queue[|r.queue|..], payload) && Carries(r'.buf, payload)
  {
    hide Drain, Insert, RcvOk;
    if InWindow(r, g.sn) {
      var b := Insert(r.buf, g);
      InsertCarries(r, g, payload);
      DrainExtendsQueue(r.(buf := b), payload);
    } else {
      assert r.queue[|r.queue|..] == [];
    }
  }

  lemma InsertCarries(r: Receiver, g: Segment, payload: nat -> Piece)
    requires RcvOk(r) && Carries(r.buf, payload) && PieceOf(g) == payload(g.sn)
    ensures Carries(Insert(r.buf, g), payload)
  {
    hide Insert;
    forall s | s in Insert(r.buf, g) ensures PieceOf(s) == payload(s.sn) {
      InsertMember(r.buf, g, s);
    }
  }

  lemma DrainExtendsQueue(m: Receiver, payload: nat -> Piece)
    requires Carries(m.buf, payload)
    ensures var r' := Drain(m);
            m.queue <= r'.queue && Carries(r'.queue[|m.queue|..], payload) && Carries(r'.buf, payload)
  {
    hide Drain;
    DrainShape(m);
    var k := Drain(m).nxt - m.nxt;
    assert Drain(m).queue[|m.queue|..] == m.buf[..k];
  }

  lemma GrowStep(r1: Receiver, r2: Receiver, arrived: set<nat>, payload: nat -> Piece, g: Segment)
    requires Grown(r1, r2, arrived, payload) && PieceOf(g) == payload(g.sn) && g.sn < r1.nxt + r1.wnd
    ensures Grown(r1, TakeData(r2, g), arrived + {g.sn}, payload)
  {
    var r3 := TakeData(r2, g);
    TakeDataKeepsReceiver(r2, g);
    TakeDataExtendsQueue(r2, g, payload);
    assert r3.queue[|r1.queue|..] == r2.queue[|r1.queue|..] + r3.queue[|r2.queue|..];
    forall n: nat ensures Received(r3, n) <==> Received(r1, n) || n in arrived + {g.sn} {
      TakeDataReceives(r2, g, n);
    }
  }

  lemma {:induction false} ArrivalsGrow(r1: Receiver, r2: Receiver, arrived: set<nat>, payload: nat -> Piece,
                                        gs: seq<Segment>)
    requires Grown(r1, r2, arrived, payload) && Carries(gs, payload) && Below(gs, r1.nxt + r1.wnd)
    ensures Grown(r1, TakeAll(r2, gs), arrived + Numbers(gs), payload)
    decreases |gs|
  {
    if gs == [] {
      assert arrived + Numbers(gs) == arrived;
    } else {
      var g, rest := gs[0], gs[1..];
      assert gs == [g] + rest;
      GrowStep(r1, r2, arrived, payload, g);
      ArrivalsGrow(r1, TakeData(r2, g), arrived + {g.sn}, payload, rest);
      assert arrived + {g.sn} + Numbers(rest) == arrived + Numbers(gs) by {
        forall n | n in Numbers(gs) ensures n == g.sn || n in Numbers(rest) {
          var s :| s in gs && s.sn == n;
        }
      }
    }
  }

  /** The receive invariant leaves no choice: what was received determines the state. */
  lemma GrownIsCanonical(r1: Receiver, r2: Receiver, arrived: set<nat>, payload: nat -> Piece)
    requires RcvOk(r1) && Grown(r1, r2, arrived, payload)
    requires forall n :: n in arrived ==> n < r1.nxt + r1.wnd
    ensures Canonical(r1, r2, Numbers(r1.buf) + arrived, payload)
  {
    hide Run, Ascending, Carries;
    var present := Numbers(r1.buf) + arrived;
    var k := r2.nxt - r1.nxt;
    var room := r1.wnd - |r1.queue|;
    forall n: nat | n >= r1.nxt ensures Received(r2, n) <==> n in present {
      if HasSn(r1.buf, n) {
        var s :| s in r1.buf && s.sn == n;
      }
    }
    forall n | r1.nxt <= n < r1.nxt + k ensures n in present {
      assert Received(r2, n);
    }
    if r2.nxt in present {
      assert Received(r2, r2.nxt);
      FrontIsNext(r2);
    }
    RunIs(present, r1.nxt, room, k);
    BufferIsAscending(r1, r2, present);
    CarriesPayloads(r2.buf, payload);
    var tail := r2.queue[|r1.queue|..];
    assert r2.queue == r1.queue + tail;
    PiecesAppend(r1.queue, tail);
    CarriesPayloads(tail, payload);
    TailIsConsecutive(r1, r2);
  }

  lemma FrontIsNext(r: Receiver)
    requires RcvOk(r) && Received(r, r.nxt)
    ensures |r.queue| == r.wnd
  {
    var s :| s in r.buf && s.sn == r.nxt;
    assert r.buf[0].sn <= s.sn;
  }

  lemma TailIsConsecutive(r1: Receiver, r2: Receiver)
    requires RcvOk(r2) && Base(r2) == Base(r1) && r1.queue <= r2.queue
    ensures SnsOf(r2.queue) == SnsOf(r1.queue) + Consecutive(r1.nxt, r2.nxt - r1.nxt)
    ensures SnsOf(r2.queue[|r1.queue|..]) == Consecutive(r1.nxt, r2.nxt - r1.nxt)
  {
  }

  lemma BufferIsAscending(r1: Receiver, r2: Receiver, present: set<nat>)
    requires RcvOk(r2) && r2.nxt >= r1.nxt
    requires forall n: nat :: n >= r1.nxt ==> (Received(r2, n) <==> n in present)
    requires forall n :: n in present ==> n < r1.nxt + r1.wnd
    ensures SnsOf(r2.buf) == Ascending(present, r2.nxt, r1.nxt + r1.wnd)
  {
    var hi := r1.nxt + r1.wnd;
    forall i | 0 <= i < |r2.buf| ensures r2.nxt <= r2.buf[i].sn < hi && r2.buf[i].sn in present {
      assert r2.buf[i] in r2.buf;
      assert Received(r2, r2.buf[i].sn);
    }
    forall n | r2.nxt <= n < hi && n in present ensures HasSn(r2.buf, n) {
      assert Received(r2, n);
    }
    AscendingIs(r2.buf, present, r2.nxt, hi);
  }

  /** Any arrivals below the end of the window, in any order and with any repetition, leave the canonical state
      of the set of their numbers. */
  lemma ArrivalsAreCanonical(r: Receiver, gs: seq<Segment>, payload: nat -> Piece)
    requires RcvOk(r) && Carries(r.buf, payload) && Carries(gs, payload) && Below(gs, r.nxt + r.wnd)
    ensures Canonical(r, TakeAll(r, gs), Numbers(r.buf) + Numbers(gs), payload)
  {
    assert r.queue[|r.queue|..] == [];
    assert Grown(r, r, {}, payload);
    ArrivalsGrow(r, r, {}, payload, gs);
    assert {} + Numbers(gs) == Numbers(gs);
    GrownIsCanonical(r, TakeAll(r, gs), Numbers(gs), payload);
  }

  /** Confluence: two arrival sequences with the same numbers leave the same queue, buffer and next number. */
  lemma ArrivalsCommute(r: Receiver, gs: seq<Segment>, hs: seq<Segment>, payload: nat -> Piece)
    requires RcvOk(r) && Carries(r.buf, payload) && Carries(gs, payload) && Carries(hs, payload)
    requires Below(gs, r.nxt + r.wnd) && Below(hs, r.nxt + r.wnd) && Numbers(gs) == Numbers(hs)
    ensures var x, y := TakeAll(r, gs), TakeAll(r, hs);
            && x.nxt == y.nxt
            && SnsOf(x.queue) == SnsOf(y.queue) && Pieces(x.queue) == Pieces(y.queue)
            && SnsOf(x.buf) == SnsOf(y.buf) && Pieces(x.buf) == Pieces(y.buf)
  {
    hide Run, Ascending, TakeAll, RcvOk, Carries, Below;
    ArrivalsAreCanonical(r, gs, payload);
    ArrivalsAreCanonical(r, hs, payload);
  }
}
