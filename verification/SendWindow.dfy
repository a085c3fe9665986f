/** The sending half: segments waiting for a sequence number (`queue`) and segments not yet acknowledged
    (`buf`), kept in order of sequence number. */
module SendWindow {
  import opened Machine
  import opened Wire
  import opened Message
  import opened Sequences

  datatype Sender = Sender(una: nat, nxt: nat, queue: seq<Segment>, buf: seq<Segment>)

  ghost predicate Sorted(buf: seq<Segment>) {
    forall i, j :: 0 <= i < j < |buf| ==> buf[i].sn < buf[j].sn
  }

  lemma SortedTail(buf: seq<Segment>)
    requires Sorted(buf) && buf != []
    ensures Sorted(buf[1..]) && forall i :: 0 < i < |buf| ==> buf[0].sn < buf[i].sn
  {
  }

  /** `una` is the first unacknowledged number: the front of `buf`, or `nxt` when nothing is outstanding. */
  ghost predicate SndOk(s: Sender) {
    && Sorted(s.buf)
    && (forall i :: 0 <= i < |s.buf| ==> s.una <= s.buf[i].sn < s.nxt)
    && s.una == FrontOr(s.buf, s.nxt)
  }

  function FrontOr(buf: seq<Segment>, nxt: nat): nat {
    if buf == [] then nxt else buf[0].sn
  }

  predicate HasSn(buf: seq<Segment>, sn: nat) {
    exists s :: s in buf && s.sn == sn
  }

  // ---------- Plain set removal

  /** The segments of `buf` that `keep` selects, in order. */
  function Filter(buf: seq<Segment>, keep: Segment -> bool): seq<Segment> {
    if buf == [] then []
    else (if keep(buf[0]) then [buf[0]] else []) + Filter(buf[1..], keep)
  }

  /** `buf` without the segment numbered `sn`. */
  function Without(buf: seq<Segment>, sn: nat): seq<Segment> {
    Filter(buf, (s: Segment) => s.sn != sn)
  }

  /** `buf` without everything below `una`. */
  function KeepFrom(buf: seq<Segment>, una: nat): seq<Segment> {
    Filter(buf, (s: Segment) => s.sn >= una)
  }

  /** Every segment numbered below `sn` has been skipped by one more acknowledgement. */
  function Skipped(buf: seq<Segment>, sn: nat): (r: seq<Segment>)
    ensures |r| == |buf|
  {
    seq(|buf|, i requires 0 <= i < |buf| =>
      if buf[i].sn < sn then buf[i].(fastack := buf[i].fastack + 1) else buf[i])
  }

  lemma {:induction false} FilterMembers(buf: seq<Segment>, keep: Segment -> bool)
    ensures forall s :: s in Filter(buf, keep) <==> s in buf && keep(s)
  {
    if buf != [] {
      FilterMembers(buf[1..], keep);
      assert buf == [buf[0]] + buf[1..];
    }
  }

  lemma {:induction false} FilterSorted(buf: seq<Segment>, keep: Segment -> bool)
    requires Sorted(buf)
    ensures Sorted(Filter(buf, keep))
  {
    if buf != [] {
      FilterSorted(buf[1..], keep);
      FilterMembers(buf[1..], keep);
      var t := Filter(buf[1..], keep);
      forall j | 0 <= j < |t| ensures buf[0].sn < t[j].sn {
        assert t[j] in buf[1..];
      }
    }
  }

  lemma {:induction false} FilterAppend(a: seq<Segment>, b: seq<Segment>, keep: Segment -> bool)
    ensures Filter(a + b, keep) == Filter(a, keep) + Filter(b, keep)
  {
    if a == [] {
      NilAppend(b);
    } else {
      FilterAppend(a[1..], b, keep);
      ConsAppend(a, b);
      Assoc(if keep(a[0]) then [a[0]] else [], Filter(a[1..], keep), Filter(b, keep));
    }
  }

  lemma {:induction false} FilterAll(buf: seq<Segment>, keep: Segment -> bool)
    requires forall i :: 0 <= i < |buf| ==> keep(buf[i])
    ensures Filter(buf, keep) == buf
  {
    if buf != [] { FilterAll(buf[1..], keep); }
  }

  lemma {:induction false} FilterNone(buf: seq<Segment>, keep: Segment -> bool)
    requires forall i :: 0 <= i < |buf| ==> !keep(buf[i])
    ensures Filter(buf, keep) == []
  {
    if buf != [] { FilterNone(buf[1..], keep); }
  }

  /** In a sorted buffer the segments to drop for a cumulative acknowledgement are the ones before the first
      segment not below it: the early-exit scan is set removal. */
  lemma ScanIsKeepFrom(buf: seq<Segment>, una: nat, k: nat)
    requires Sorted(buf) && k <= |buf|
    requires forall i :: 0 <= i < k ==> buf[i].sn < una
    requires k < |buf| ==> buf[k].sn >= una
    ensures KeepFrom(buf, una) == buf[k..]
  {
    hide Filter, Sorted;
    var keep := (s: Segment) => s.sn >= una;
    SuffixAtLeast(buf, k, una);
    FilterNone(buf[..k], keep);
    FilterAll(buf[k..], keep);
    FilterAppend(buf[..k], buf[k..], keep);
    Split(buf, k);
    NilAppend(buf[k..]);
  }

  lemma SuffixAtLeast(buf: seq<Segment>, k: nat, n: nat)
    requires Sorted(buf) && k <= |buf| && (k < |buf| ==> buf[k].sn >= n)
    ensures forall i :: 0 <= i < |buf[k..]| ==> buf[k..][i].sn >= n
    ensures forall i :: 0 < i < |buf[k..]| ==> buf[k..][i].sn > n
  {
  }

  /** The same for a selective acknowledgement: the scan stops at the number or at a larger one. */
  lemma ScanIsWithout(buf: seq<Segment>, sn: nat, k: nat)
    requires Sorted(buf) && k <= |buf|
    requires forall i :: 0 <= i < k ==> buf[i].sn < sn
    requires k < |buf| ==> buf[k].sn >= sn
    ensures Without(buf, sn) == if k < |buf| && buf[k].sn == sn then buf[..k] + buf[k + 1..] else buf
  {
    hide Filter, Sorted;
    var keep := (s: Segment) => s.sn != sn;
    SuffixAtLeast(buf, k, sn);
    if k < |buf| && buf[k].sn == sn {
      FilterAll(buf[..k], keep);
      assert buf[k + 1..] == buf[k..][1..];
      FilterAll(buf[k..][1..], keep);
      DropOne(buf[..k], buf[k], buf[k + 1..], keep);
      assert buf == buf[..k] + ([buf[k]] + buf[k + 1..]);
    } else {
      NoneEqual(buf, sn, k);
      FilterAll(buf, keep);
    }
  }

  lemma NoneEqual(buf: seq<Segment>, sn: nat, k: nat)
    requires Sorted(buf) && k <= |buf| && (forall i :: 0 <= i < k ==> buf[i].sn < sn)
    requires k < |buf| ==> buf[k].sn > sn
    ensures forall i :: 0 <= i < |buf| ==> buf[i].sn != sn
  {
  }

  lemma DropOne(a: seq<Segment>, g: Segment, c: seq<Segment>, keep: Segment -> bool)
    requires Filter(a, keep) == a && Filter(c, keep) == c && !keep(g)
    ensures Filter(a + ([g] + c), keep) == a + c
  {
    var t := [g] + c;
    FilterAppend(a, t, keep);
    assert t[1..] == c;
    assert Filter(t, keep) == [] + Filter(c, keep) == c;
  }

  // ---------- Acknowledgements

  function Shrink(s: Sender): Sender {
    s.(una := FrontOr(s.buf, s.nxt))
  }

  /** A cumulative acknowledgement of everything below `una`. */
  function TakeUna(s: Sender, una: nat): Sender {
    Shrink(s.(buf := KeepFrom(s.buf, una)))
  }

  /** An acknowledgement of `sn` alone. */
  function TakeAck(s: Sender, sn: nat): Sender {
    Shrink(s.(buf := Without(s.buf, sn)))
  }

  /** The fast-retransmit count after a batch of acknowledgements whose largest number is `sn`. */
  function TakeFastack(s: Sender, sn: nat): Sender {
    if sn < s.una || sn >= s.nxt then s else s.(buf := Skipped(s.buf, sn))
  }

  lemma FilteredSender(s: Sender, keep: Segment -> bool)
    requires SndOk(s)
    ensures var s' := Shrink(s.(buf := Filter(s.buf, keep))); SndOk(s') && s.una <= s'.una <= s.nxt
  {
    FilterMembers(s.buf, keep);
    FilterSorted(s.buf, keep);
    var b := Filter(s.buf, keep);
    forall i | 0 <= i < |b| ensures s.una <= b[i].sn < s.nxt {
      assert b[i] in s.buf;
    }
  }

  /** Acknowledgements, whatever number they name, keep the invariant and never move `una` back. */
  lemma AcksKeepSender(s: Sender, una: nat, sn: nat)
    requires SndOk(s)
    ensures SndOk(TakeUna(s, una)) && s.una <= TakeUna(s, una).una <= s.nxt
    ensures SndOk(TakeAck(s, sn)) && s.una <= TakeAck(s, sn).una <= s.nxt
    ensures SndOk(TakeFastack(s, sn)) && TakeFastack(s, sn).una == s.una
  {
    FilteredSender(s, (g: Segment) => g.sn >= una);
    FilteredSender(s, (g: Segment) => g.sn != sn);
    FastackKeepsSender(s, sn);
  }

  /** Counting skips touches no number and no payload. */
  lemma FastackKeepsSender(s: Sender, sn: nat)
    requires SndOk(s)
    ensures var s' := TakeFastack(s, sn); SndOk(s') && s' == s.(buf := s'.buf) && |s'.buf| == |s.buf|
    ensures forall i :: 0 <= i < |s.buf| ==>
              TakeFastack(s, sn).buf[i] == s.buf[i].(fastack := TakeFastack(s, sn).buf[i].fastack)
  {
    var b := TakeFastack(s, sn).buf;
    assert forall i :: 0 <= i < |b| ==> b[i].sn == s.buf[i].sn;
  }

  /** After a cumulative acknowledgement, `una` is at least the number acknowledged, up to what was sent. */
  lemma UnaIsAcknowledged(s: Sender, una: nat)
    requires SndOk(s)
    ensures TakeUna(s, una).una >= Min(una, s.nxt)
    ensures forall g :: g in TakeUna(s, una).buf <==> g in s.buf && g.sn >= una
  {
    FilterMembers(s.buf, (g: Segment) => g.sn >= una);
    var b := TakeUna(s, una).buf;
    assert b != [] ==> b[0] in b;
  }

  /** A single acknowledgement removes the segment of that number and no other. */
  lemma AckRemovesOne(s: Sender, sn: nat)
    ensures forall g :: g in TakeAck(s, sn).buf <==> g in s.buf && g.sn != sn
  {
    FilterMembers(s.buf, (g: Segment) => g.sn != sn);
  }

  /** Acknowledging the front segment alone moves `una` strictly forward. */
  lemma FrontAckAdvances(s: Sender)
    requires SndOk(s) && s.buf != []
    ensures TakeAck(s, s.una).una > s.una
  {
    FilterMembers(s.buf, (g: Segment) => g.sn != s.una);
    var b := TakeAck(s, s.una).buf;
    if b != [] {
      assert b[0] in b;
    }
  }

  // ---------- Admission to the window

  /** What `flush` stamps on a segment it gives a sequence number. */
  datatype Stamp = Stamp(conv: u32, wnd: nat, now: u32, una: nat, rto: nat)

  function Stamped(s: Segment, sn: nat, t: Stamp): Segment {
    s.(conv := t.conv, cmd := CMD_PUSH, wnd := t.wnd, ts := t.now, sn := sn, una := t.una, resendts := t.now,
       rto := t.rto, fastack := 0, xmit := 0)
  }

  /** Moves segments from the queue into the window while sequence numbers below `una + limit` are left. */
  function Admit(s: Sender, limit: nat, t: Stamp): Sender
    decreases |s.queue|
  {
    if s.nxt < s.una + limit && s.queue != [] then Admit(AdmitStep(s, t), limit, t) else s
  }

  function AdmitStep(s: Sender, t: Stamp): Sender
    requires s.queue != []
  {
    s.(nxt := s.nxt + 1, queue := s.queue[1..], buf := s.buf + [Stamped(s.queue[0], s.nxt, t)])
  }

  lemma AdmitOne(s: Sender, t: Stamp)
    requires SndOk(s) && s.queue != []
    ensures SndOk(AdmitStep(s, t)) && AdmitStep(s, t).una == s.una
  {
    var b := AdmitStep(s, t).buf;
    assert forall i :: 0 <= i < |s.buf| ==> b[i] == s.buf[i];
  }

  /** Admission keeps the invariant, leaves `una` alone, gives out numbers below `una + limit` only, and stops
      only when the window or the queue is used up. */
  lemma {:induction false} AdmitKeepsSender(s: Sender, limit: nat, t: Stamp)
    requires SndOk(s)
    ensures var s' := Admit(s, limit, t);
            && SndOk(s') && s'.una == s.una
            && s.nxt <= s'.nxt <= s.nxt + |s.queue|
            && (s'.nxt > s.nxt ==> s'.nxt <= s.una + limit)
            && (s'.queue == [] || s'.nxt >= s.una + limit)
    decreases |s.queue|
  {
    if s.nxt < s.una + limit && s.queue != [] {
      AdmitOne(s, t);
      AdmitKeepsSender(AdmitStep(s, t), limit, t);
    }
  }

  /** The numbers given out are consecutive, in queue order, and the payload is left alone. */
  lemma {:induction false} AdmitShape(s: Sender, limit: nat, t: Stamp)
    ensures var s' := Admit(s, limit, t); var k := s'.nxt - s.nxt;
            && 0 <= k <= |s.queue| && s'.queue == s.queue[k..]
            && s'.buf == s.buf + AdmittedRun(s.queue[..k], s.nxt, t)
    decreases |s.queue|
  {
    if s.nxt < s.una + limit && s.queue != [] {
      var m := AdmitStep(s, t);
      AdmitShape(m, limit, t);
      var k := Admit(m, limit, t).nxt - s.nxt;
      assert m.queue[k - 1..] == s.queue[k..];
      AdmittedRunCons(s.queue, k, s.nxt, t);
      assert (s.buf + [Stamped(s.queue[0], s.nxt, t)]) + AdmittedRun(m.queue[..k - 1], m.nxt, t)
          == s.buf + AdmittedRun(s.queue[..k], s.nxt, t);
    } else {
      assert s.queue[0..] == s.queue;
      assert s.buf + AdmittedRun(s.queue[..0], s.nxt, t) == s.buf;
    }
  }

  lemma AdmittedRunCons(q: seq<Segment>, k: nat, sn: nat, t: Stamp)
    requires 0 < k <= |q|
    ensures AdmittedRun(q[..k], sn, t) == [Stamped(q[0], sn, t)] + AdmittedRun(q[1..][..k - 1], sn + 1, t)
  {
    var a, b := AdmittedRun(q[..k], sn, t), AdmittedRun(q[1..][..k - 1], sn + 1, t);
    forall i | 1 <= i < k ensures a[i] == b[i - 1] {
      assert q[..k][i] == q[1..][..k - 1][i - 1];
    }
  }

  function AdmittedRun(q: seq<Segment>, sn: nat, t: Stamp): (r: seq<Segment>)
    ensures |r| == |q|
  {
    seq(|q|, i requires 0 <= i < |q| => Stamped(q[i], sn + i, t))
  }

  /** Payload is conserved: the fragments in the window followed by those in the queue stay the same list. */
  lemma AdmitConservesPieces(s: Sender, limit: nat, t: Stamp)
    requires SndOk(s)
    ensures var s' := Admit(s, limit, t);
            Pieces(s'.buf) + Pieces(s'.queue) == Pieces(s.buf) + Pieces(s.queue)
  {
    hide SndOk, Admit;
    AdmitKeepsSender(s, limit, t);
    AdmitShape(s, limit, t);
    var k := Admit(s, limit, t).nxt - s.nxt;
    var run := AdmittedRun(s.queue[..k], s.nxt, t);
    assert s.queue == s.queue[..k] + s.queue[k..];
    PiecesAppend(s.buf, run);
    PiecesAppend(s.queue[..k], s.queue[k..]);
    assert Pieces(run) == Pieces(s.queue[..k]);
  }
}
