/** How `flush` packs encoded segments into datagrams. What the output buffer answers when it is asked for its free
    room belongs to a library; nothing is assumed about it. */
module Packing {
  import opened Machine
  import opened Wire
  import opened Sequences

  /** The bytes not yet written and the datagrams written so far. */
  datatype Out = Out(buffer: seq<byte>, written: seq<seq<byte>>)

  /** The two questions a flush asks the buffer: whether its reported room and the bytes needed exceed the size
      limit, and whether it reports any room at all. The answers may depend on everything. */
  datatype Packer = Packer(full: (Out, nat, nat) -> bool, spare: Out -> bool)

  function Written(o: Out): Out {
    Out([], o.written + [o.buffer])
  }

  /** Appends a segment, after writing out the buffer when it says so. */
  function Put(k: Packer, mtu: nat, o: Out, g: Segment): Out {
    var p := if k.full(o, OVERHEAD + |g.data|, mtu) then Written(o) else o;
    p.(buffer := p.buffer + Encode(g))
  }

  /** The buffer is asked about exactly the bytes of the segment, and either keeps what it holds in front of them or has
      written it out. */
  lemma PutAsks(k: Packer, mtu: nat, o: Out, g: Segment)
    ensures Put(k, mtu, o, g) == if k.full(o, |Encode(g)|, mtu) then Out(Encode(g), o.written + [o.buffer])
                                 else Out(o.buffer + Encode(g), o.written)
  {
    hide Encode;
    assert [] + Encode(g) == Encode(g);
  }

  function PutAll(k: Packer, mtu: nat, o: Out, segs: seq<Segment>): Out
    decreases |segs|
  {
    if segs == [] then o else PutAll(k, mtu, Put(k, mtu, o, segs[0]), segs[1..])
  }

  function Finish(k: Packer, o: Out): Out {
    if k.spare(o) then Written(o) else o
  }

  /** One flush that hands `segs` to the output. */
  function Deliver(k: Packer, mtu: nat, o: Out, segs: seq<Segment>): Out {
    Finish(k, PutAll(k, mtu, o, segs))
  }

  lemma {:induction false} PutAllAppend(k: Packer, mtu: nat, o: Out, a: seq<Segment>, b: seq<Segment>)
    ensures PutAll(k, mtu, o, a + b) == PutAll(k, mtu, PutAll(k, mtu, o, a), b)
    decreases |a|
  {
    hide Put;
    if a == [] {
      NilAppend(b);
    } else {
      PutAllAppend(k, mtu, Put(k, mtu, o, a[0]), a[1..], b);
      ConsAppend(a, b);
    }
  }

  lemma PutAllSnoc(k: Packer, mtu: nat, o: Out, a: seq<Segment>, g: Segment)
    ensures PutAll(k, mtu, o, a + [g]) == Put(k, mtu, PutAll(k, mtu, o, a), g)
  {
    PutAllAppend(k, mtu, o, a, [g]);
    assert PutAll(k, mtu, PutAll(k, mtu, o, a), [g])
        == PutAll(k, mtu, Put(k, mtu, PutAll(k, mtu, o, a), g), []);
  }

  // ---------- Conservation

  function Concat<T>(groups: seq<seq<T>>): seq<T> {
    if groups == [] then [] else groups[0] + Concat(groups[1..])
  }

  function EncodeGroups(groups: seq<seq<Segment>>): (r: seq<seq<byte>>)
    ensures |r| == |groups|
  {
    seq(|groups|, i requires 0 <= i < |groups| => EncodeAll(groups[i]))
  }

  lemma {:induction false} ConcatSnoc<T>(groups: seq<seq<T>>, x: seq<T>)
    ensures Concat(groups + [x]) == Concat(groups) + x
  {
    if groups == [] {
      assert Concat([x]) == x + Concat<T>([]);
    } else {
      ConcatSnoc(groups[1..], x);
      assert (groups + [x])[1..] == groups[1..] + [x];
    }
  }

  lemma {:induction false} EncodeAllSnoc(segs: seq<Segment>, g: Segment)
    ensures EncodeAll(segs + [g]) == EncodeAll(segs) + Encode(g)
  {
    hide Encode;
    if segs == [] {
      assert EncodeAll([g]) == Encode(g) + EncodeAll([]);
    } else {
      EncodeAllSnoc(segs[1..], g);
      ConsAppend(segs, [g]);
      Assoc(Encode(segs[0]), EncodeAll(segs[1..]), Encode(g));
    }
  }

  /** `o` came from `start` by writing out `groups`, one datagram each, and buffering `open`. */
  ghost predicate Packs(start: Out, o: Out, groups: seq<seq<Segment>>, open: seq<Segment>) {
    && o.written == start.written + EncodeGroups(groups)
    && o.buffer == EncodeAll(open)
  }

  lemma PutPacks(k: Packer, mtu: nat, start: Out, o: Out, g: Segment,
                 groups: seq<seq<Segment>>, open: seq<Segment>)
    requires Packs(start, o, groups, open)
    ensures var o' := Put(k, mtu, o, g);
            || Packs(start, o', groups, open + [g])
            || Packs(start, o', groups + [open], [g])
  {
    EncodeAllSnoc(open, g);
    EncodeAllSnoc([], g);
    assert [] + [g] == [g];
    assert EncodeGroups(groups + [open]) == EncodeGroups(groups) + [EncodeAll(open)];
  }

  lemma {:induction false} PutAllPacks(k: Packer, mtu: nat, start: Out, o: Out, segs: seq<Segment>,
                                       groups: seq<seq<Segment>>, open: seq<Segment>)
      returns (groups': seq<seq<Segment>>, open': seq<Segment>)
    requires Packs(start, o, groups, open)
    ensures Packs(start, PutAll(k, mtu, o, segs), groups', open')
    ensures Concat(groups') + open' == Concat(groups) + open + segs
    decreases |segs|
  {
    if segs == [] {
      groups', open' := groups, open;
    } else {
      var g := segs[0];
      PutPacks(k, mtu, start, o, g, groups, open);
      assert segs == [g] + segs[1..];
      var next := Put(k, mtu, o, g);
      if Packs(start, next, groups, open + [g]) {
        groups', open' := PutAllPacks(k, mtu, start, next, segs[1..], groups, open + [g]);
      } else {
        ConcatSnoc(groups, open);
        groups', open' := PutAllPacks(k, mtu, start, next, segs[1..], groups + [open], [g]);
      }
    }
  }

  lemma StartPacks(start: Out)
    requires start.buffer == []
    ensures Packs(start, start, [], []) && Concat<Segment>([]) + [] == []
  {
  }

  lemma FlushSplits(k: Packer, mtu: nat, start: Out, segs: seq<Segment>)
      returns (groups: seq<seq<Segment>>, open: seq<Segment>)
    requires start.buffer == []
    ensures var o := Deliver(k, mtu, start, segs);
            && Packs(start, o, groups, open)
            && Concat(groups) + open == segs
            && (k.spare(PutAll(k, mtu, start, segs)) ==> open == [])
  {
    hide Put, PutAll, Encode, EncodeAll;
    StartPacks(start);
    groups, open := PutAllPacks(k, mtu, start, start, segs, [], []);
    if k.spare(PutAll(k, mtu, start, segs)) {
      assert EncodeGroups(groups + [open]) == EncodeGroups(groups) + [EncodeAll(open)];
      ConcatSnoc(groups, open);
      groups, open := groups + [open], [];
    }
  }

  /** Conservation: starting from an empty buffer, whatever the buffer answers, the datagrams written are encodings
      of consecutive groups of the segments, all of them, in order, split between segments only; what is not
      written is the encoding of a last group. A buffer that always reports room ends empty. */
  lemma FlushConserves(k: Packer, mtu: nat, start: Out, segs: seq<Segment>)
    requires start.buffer == []
    ensures exists groups: seq<seq<Segment>>, open: seq<Segment> ::
              && Packs(start, Deliver(k, mtu, start, segs), groups, open)
              && Concat(groups) + open == segs
              && ((forall o :: k.spare(o)) ==> open == [])
  {
    var groups, open := FlushSplits(k, mtu, start, segs);
  }

  // ---------- One segment per datagram

  /** While it holds no more than one segment of at most `mss` bytes, the buffer asks to be written out before any
      other such segment, and again at the end. */
  ghost predicate OneEach(k: Packer, mtu: nat, mss: nat) {
    && (forall o: Out, need: nat :: |o.buffer| <= OVERHEAD + mss && need <= OVERHEAD + mss ==> k.full(o, need, mtu))
    && (forall o: Out :: |o.buffer| <= OVERHEAD + mss ==> k.spare(o))
  }

  /** The datagrams that one segment after another gives when each is written by itself, with an empty write in
      front of the first. */
  function Singles(segs: seq<Segment>): (r: seq<seq<byte>>)
    ensures |r| == |segs|
  {
    seq(|segs|, i requires 0 <= i < |segs| => Encode(segs[i]))
  }

  ghost predicate AllSmall(segs: seq<Segment>, mss: nat) {
    forall i :: 0 <= i < |segs| ==> |segs[i].data| <= mss
  }

  lemma {:induction false} PutAllSingles(k: Packer, mtu: nat, mss: nat, o: Out, segs: seq<Segment>)
    requires OneEach(k, mtu, mss) && |o.buffer| <= OVERHEAD + mss && AllSmall(segs, mss)
    ensures segs != [] ==>
              var last := |segs| - 1;
              PutAll(k, mtu, o, segs) == Out(Encode(segs[last]), o.written + [o.buffer] + Singles(segs[..last]))
    decreases |segs|
  {
    hide Encode;
    if segs != [] {
      var next, first := Put(k, mtu, o, segs[0]), Encode(segs[0]);
      PutSingle(k, mtu, mss, o, segs[0]);
      PutAllSingles(k, mtu, mss, next, segs[1..]);
      if |segs| > 1 {
        var last := |segs| - 1;
        var rest := Singles(segs[1..last]);
        assert segs[1..][..last - 1] == segs[1..last];
        assert Singles(segs[..last]) == [first] + rest;
        assert (o.written + [o.buffer]) + [first] + rest == o.written + [o.buffer] + ([first] + rest);
      } else {
        assert Singles(segs[..0]) == [];
      }
    }
  }

  lemma PutSingle(k: Packer, mtu: nat, mss: nat, o: Out, g: Segment)
    requires OneEach(k, mtu, mss) && |o.buffer| <= OVERHEAD + mss && |g.data| <= mss
    ensures Put(k, mtu, o, g) == Out(Encode(g), o.written + [o.buffer])
  {
    hide Encode;
    assert [] + Encode(g) == Encode(g);
  }

  /** Such a buffer makes every write empty or exactly one segment of at most mss + 24 bytes, and each segment is
      written by itself. */
  lemma OneSegmentPerDatagram(k: Packer, mtu: nat, mss: nat, start: Out, segs: seq<Segment>)
    requires OneEach(k, mtu, mss) && start.buffer == [] && AllSmall(segs, mss)
    ensures Deliver(k, mtu, start, segs) == Out([], start.written + [[]] + Singles(segs))
    ensures forall i :: 0 <= i < |segs| ==> |Singles(segs)[i]| <= OVERHEAD + mss
  {
    PutAllSingles(k, mtu, mss, start, segs);
    if segs != [] {
      assert Singles(segs) == Singles(segs[..|segs| - 1]) + [Encode(segs[|segs| - 1])];
    }
  }

  // ---------- Two readings of the reported room

  const CAPACITY := (1_400 + OVERHEAD) * 3

  /** The free capacity of the buffer created for the default size limit. */
  function FreeCapacity(n: nat): nat {
    if n <= CAPACITY then CAPACITY - n else 0
  }

  const BY_CAPACITY := Packer((o: Out, need: nat, mtu: nat) => FreeCapacity(|o.buffer|) + need > mtu,
                              (o: Out) => FreeCapacity(|o.buffer|) > 0)

  lemma CapacityIsOneEach()
    ensures OneEach(BY_CAPACITY, 1_400, 1_400 - OVERHEAD)
  {
  }

  const U64_LIMIT := 0x1_0000_0000_0000_0000

  /** A buffer that can always grow: its room is what is missing to the largest 64-bit word, and the sum of room
      and need wraps. */
  const GROWABLE := Packer((o: Out, need: nat, mtu: nat) => (U64_LIMIT - 1 - |o.buffer| + need) % U64_LIMIT > mtu,
                           (o: Out) => U64_LIMIT - 1 - |o.buffer| > 0)

  /** Read that way, a segment is put into the same datagram as the ones before exactly when it is longer than all
      of them together, so datagrams may hold several segments and exceed the size limit. */
  lemma GrowableIsNotOneEach(o: Out, g: Segment)
    requires |o.buffer| < U64_LIMIT / 2 && OVERHEAD + |g.data| <= 1_400
    ensures GROWABLE.full(o, OVERHEAD + |g.data|, 1_400) <==> OVERHEAD + |g.data| <= |o.buffer|
    ensures !OneEach(GROWABLE, 1_400, 1_400 - OVERHEAD)
  {
    var need := OVERHEAD + |g.data|;
    if need <= |o.buffer| {
      assert (U64_LIMIT - 1 - |o.buffer| + need) % U64_LIMIT == U64_LIMIT - 1 - |o.buffer| + need;
    } else {
      assert (U64_LIMIT - 1 - |o.buffer| + need) % U64_LIMIT == need - 1 - |o.buffer|;
    }
    var empty := Out([], []);
    assert !GROWABLE.full(empty, OVERHEAD, 1_400);
  }
}
