/** The receiving half: segments ready for the application (`queue`) and segments that arrived ahead of a gap
    (`buf`). */
module ReceiveWindow {
  import opened Wire
  import opened SendWindow
  import opened Sequences

  datatype Receiver = Receiver(nxt: nat, wnd: nat, queue: seq<Segment>, buf: seq<Segment>)

  /** The queue is a consecutive run of numbers ending just before `nxt` and fits the window; the buffer is
      sorted inside the window; and the next segment waits in the buffer only while the queue is full. */
  ghost predicate RcvOk(r: Receiver) {
    && Held(r)
    && (r.buf != [] && r.buf[0].sn == r.nxt ==> |r.queue| == r.wnd)
  }

  /** `RcvOk` without its last clause: what holds before arrivals are moved to the queue. */
  ghost predicate Held(r: Receiver) {
    && |r.queue| <= r.wnd && |r.queue| <= r.nxt
    && (forall i :: 0 <= i < |r.queue| ==> r.queue[i].sn == Base(r) + i)
    && Sorted(r.buf)
    && (forall i :: 0 <= i < |r.buf| ==> r.nxt <= r.buf[i].sn < r.nxt + r.wnd)
  }

  /** The number of the segment at the front of the queue. */
  function Base(r: Receiver): int {
    r.nxt - |r.queue|
  }

  /** The receiver has taken in the segment numbered `sn`: it is delivered, queued or buffered. */
  predicate Received(r: Receiver, sn: nat) {
    sn < r.nxt || HasSn(r.buf, sn)
  }

  // ---------- Arrivals

  /** Sorted insertion; a second copy of a number is dropped. */
  function Insert(buf: seq<Segment>, g: Segment): seq<Segment> {
    if buf == [] || g.sn < buf[0].sn then [g] + buf
    else if g.sn == buf[0].sn then buf
    else [buf[0]] + Insert(buf[1..], g)
  }

  /** Moves the next segments from the buffer to the queue while there is room. */
  function Drain(r: Receiver): Receiver
    decreases |r.buf|
  {
    if r.buf != [] && r.buf[0].sn == r.nxt && |r.queue| < r.wnd then
      Drain(DrainStep(r))
    else r
  }

  predicate InWindow(r: Receiver, sn: nat) {
    r.nxt <= sn < r.nxt + r.wnd
  }

  function TakeData(r: Receiver, g: Segment): Receiver {
    if InWindow(r, g.sn) then Drain(r.(buf := Insert(r.buf, g))) else r
  }

  /** The scan from the back finds the same place: between the smaller and the larger numbers. */
  lemma {:induction false} InsertAt(buf: seq<Segment>, g: Segment, k: nat)
    requires k <= |buf|
    requires forall i :: 0 <= i < k ==> buf[i].sn < g.sn
    requires k < |buf| ==> g.sn < buf[k].sn
    ensures Insert(buf, g) == buf[..k] + [g] + buf[k..]
  {
    if k > 0 {
      InsertAt(buf[1..], g, k - 1);
      assert buf[1..][..k - 1] == buf[1..k] && buf[1..][k - 1..] == buf[k..];
      assert buf[..k] == [buf[0]] + buf[1..k];
    }
  }

  lemma {:induction false} InsertDuplicate(buf: seq<Segment>, g: Segment)
    requires Sorted(buf) && HasSn(buf, g.sn)
    ensures Insert(buf, g) == buf
  {
    var s :| s in buf && s.sn == g.sn;
    var k :| 0 <= k < |buf| && buf[k] == s;
    InsertDuplicateAt(buf, g, k);
  }

  lemma {:induction false} InsertDuplicateAt(buf: seq<Segment>, g: Segment, k: nat)
    requires Sorted(buf) && k < |buf| && buf[k].sn == g.sn
    ensures Insert(buf, g) == buf
  {
    hide Sorted;
    if k > 0 {
      SortedTail(buf);
      assert buf[k].sn > buf[0].sn && buf[1..][k - 1] == buf[k];
      InsertDuplicateAt(buf[1..], g, k - 1);
    }
  }

  /** Insertion keeps the order and makes the number present. */
  lemma InsertSorted(buf: seq<Segment>, g: Segment)
    requires Sorted(buf)
    ensures Sorted(Insert(buf, g)) && HasSn(Insert(buf, g), g.sn)
  {
    if HasSn(buf, g.sn) {
      InsertDuplicate(buf, g);
    } else {
      var k := FirstAbove(buf, g.sn);
      InsertAt(buf, g, k);
      Inserted(buf, g, k);
    }
  }

  lemma Inserted(buf: seq<Segment>, g: Segment, k: nat)
    requires Sorted(buf) && k <= |buf|
    requires forall i :: 0 <= i < k ==> buf[i].sn < g.sn
    requires forall i :: k <= i < |buf| ==> g.sn < buf[i].sn
    ensures var b := buf[..k] + [g] + buf[k..]; Sorted(b) && HasSn(b, g.sn)
  {
    assert (buf[..k] + [g] + buf[k..])[k] == g;
  }

  /** Insertion adds the segment when its number is new, and changes nothing else. */
  lemma {:induction false} InsertMember(buf: seq<Segment>, g: Segment, s: Segment)
    requires Sorted(buf)
    ensures s in Insert(buf, g) <==> s in buf || (s == g && !HasSn(buf, g.sn))
  {
    if HasSn(buf, g.sn) {
      InsertDuplicate(buf, g);
    } else {
      var k := FirstAbove(buf, g.sn);
      InsertAt(buf, g, k);
      assert buf == buf[..k] + buf[k..];
    }
  }

  lemma InsertNumbers(buf: seq<Segment>, g: Segment, n: nat)
    requires Sorted(buf)
    ensures HasSn(Insert(buf, g), n) <==> HasSn(buf, n) || n == g.sn
  {
    InsertSorted(buf, g);
    if HasSn(buf, n) {
      var s :| s in buf && s.sn == n;
      InsertMember(buf, g, s);
    }
    if HasSn(Insert(buf, g), n) {
      var s :| s in Insert(buf, g) && s.sn == n;
      InsertMember(buf, g, s);
    }
  }

  function FirstAbove(buf: seq<Segment>, sn: nat): (k: nat)
    requires Sorted(buf) && !HasSn(buf, sn)
    ensures k <= |buf|
    ensures forall i :: 0 <= i < k ==> buf[i].sn < sn
    ensures forall i :: k <= i < |buf| ==> sn < buf[i].sn
  {
    if buf == [] || sn < buf[0].sn then 0
    else
      assert buf[0].sn != sn;
      assert forall i :: 0 <= i < |buf[1..]| ==> buf[1..][i] == buf[i + 1];
      1 + FirstAbove(buf[1..], sn)
  }

  function DrainStep(r: Receiver): Receiver
    requires r.buf != []
  {
    r.(nxt := r.nxt + 1, queue := r.queue + [r.buf[0]], buf := r.buf[1..])
  }

  lemma {:induction false} DrainKeepsWindow(r: Receiver)
    ensures Drain(r).wnd == r.wnd
    decreases |r.buf|
  {
    if r.buf != [] && r.buf[0].sn == r.nxt && |r.queue| < r.wnd {
      DrainKeepsWindow(DrainStep(r));
    }
  }

  lemma DrainOne(r: Receiver)
    requires Held(r) && r.buf != [] && r.buf[0].sn == r.nxt && |r.queue| < r.wnd
    ensures Held(DrainStep(r)) && Base(DrainStep(r)) == Base(r)
  {
    var m := DrainStep(r);
    assert forall i :: 0 <= i < |m.buf| ==> m.buf[i] == r.buf[i + 1];
    assert forall i :: 0 <= i < |r.queue| ==> m.queue[i] == r.queue[i];
  }

  /** Draining establishes the invariant. */
  lemma {:induction false} DrainKeepsReceiver(r: Receiver)
    requires Held(r)
    ensures RcvOk(Drain(r)) && Drain(r).wnd == r.wnd && Base(Drain(r)) == Base(r)
    decreases |r.buf|
  {
    if r.buf != [] && r.buf[0].sn == r.nxt && |r.queue| < r.wnd {
      DrainOne(r);
      DrainKeepsReceiver(DrainStep(r));
    }
  }

  /** Draining moves the first segments of the buffer, numbered from `nxt` on, to the end of the queue. */
  lemma {:induction false} DrainShape(r: Receiver)
    ensures var r' := Drain(r); var k := r'.nxt - r.nxt;
            && 0 <= k <= |r.buf|
            && r'.queue == r.queue + r.buf[..k] && r'.buf == r.buf[k..]
    decreases |r.buf|
  {
    if r.buf != [] && r.buf[0].sn == r.nxt && |r.queue| < r.wnd {
      var m := DrainStep(r);
      DrainShape(m);
      ShiftOne(r.queue, r.buf, Drain(m).nxt - r.nxt);
    } else {
      assert r.queue + r.buf[..0] == r.queue;
    }
  }

  /** Draining changes where a segment is held, not whether it has been received. */
  lemma {:induction false} DrainKeepsReceived(r: Receiver, n: nat)
    ensures Received(Drain(r), n) <==> Received(r, n)
    decreases |r.buf|
  {
    if r.buf != [] && r.buf[0].sn == r.nxt && |r.queue| < r.wnd {
      assert r.buf == [r.buf[0]] + r.buf[1..];
      assert r.buf[0] in r.buf;
      DrainKeepsReceived(DrainStep(r), n);
    }
  }

  /** An arrival keeps the invariant, never moves `nxt` back and does not touch the front of the queue. */
  lemma TakeDataKeepsReceiver(r: Receiver, g: Segment)
    requires RcvOk(r)
    ensures var r' := TakeData(r, g);
            && RcvOk(r') && r'.wnd == r.wnd && r'.nxt >= r.nxt && Base(r') == Base(r)
  {
    if InWindow(r, g.sn) {
      InsertHeld(r, g);
      DrainKeepsReceiver(r.(buf := Insert(r.buf, g)));
      DrainShape(r.(buf := Insert(r.buf, g)));
    }
  }

  lemma InsertHeld(r: Receiver, g: Segment)
    requires RcvOk(r) && InWindow(r, g.sn)
    ensures Held(r.(buf := Insert(r.buf, g)))
  {
    InsertSorted(r.buf, g);
    var b := Insert(r.buf, g);
    forall i | 0 <= i < |b| ensures r.nxt <= b[i].sn < r.nxt + r.wnd {
      InsertMember(r.buf, g, b[i]);
    }
  }

  /** After an arrival a number is received exactly when it was before, or is the arriving number and lies in
      the window. */
  lemma TakeDataReceives(r: Receiver, g: Segment, n: nat)
    requires RcvOk(r)
    ensures Received(TakeData(r, g), n) <==> Received(r, n) || (n == g.sn && InWindow(r, n))
  {
    if InWindow(r, g.sn) {
      InsertHeld(r, g);
      InsertNumbers(r.buf, g, n);
      DrainKeepsReceived(r.(buf := Insert(r.buf, g)), n);
    }
  }

  predicate Holds(r: Receiver, s: Segment) {
    s in r.queue || s in r.buf
  }

  /** Draining keeps exactly the segments held. */
  lemma {:induction false} DrainMembers(r: Receiver, s: Segment)
    ensures Holds(Drain(r), s) <==> Holds(r, s)
    decreases |r.buf|
  {
    if r.buf != [] && r.buf[0].sn == r.nxt && |r.queue| < r.wnd {
      assert r.buf == [r.buf[0]] + r.buf[1..];
      DrainMembers(DrainStep(r), s);
    }
  }

  /** An arrival brings nothing but itself, and loses nothing. */
  lemma TakeDataMembers(r: Receiver, g: Segment, s: Segment)
    requires RcvOk(r)
    ensures Holds(TakeData(r, g), s) <==>
            Holds(r, s) || (s == g && InWindow(r, g.sn) && !HasSn(r.buf, g.sn))
  {
    if InWindow(r, g.sn) {
      InsertMember(r.buf, g, s);
      DrainMembers(r.(buf := Insert(r.buf, g)), s);
    }
  }

  // ---------- Reading

  /** The segments `recv` takes when a message is complete and fits the caller's buffer. */
  function Take(r: Receiver, n: nat): Receiver
    requires n <= |r.queue|
  {
    Drain(r.(queue := r.queue[n..]))
  }

  /** Taking the front of the queue keeps the invariant and what has been received, and moves the front of
      the queue forward by what was taken. */
  lemma TakeMeaning(r: Receiver, n: nat)
    requires RcvOk(r) && n <= |r.queue|
    ensures var r' := Take(r, n);
            && RcvOk(r') && r'.wnd == r.wnd && r'.nxt >= r.nxt && Base(r') == Base(r) + n
  {
    DrainKeepsReceiver(r.(queue := r.queue[n..]));
    DrainShape(r.(queue := r.queue[n..]));
  }

  lemma TakeKeepsReceived(r: Receiver, n: nat, k: nat)
    requires RcvOk(r) && n <= |r.queue|
    ensures Received(Take(r, n), k) <==> Received(r, k)
  {
    DrainKeepsReceived(r.(queue := r.queue[n..]), k);
  }
}
