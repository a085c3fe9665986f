/** Messages, their fragments, and the reassembly of a message from a queue of fragments. */
module Message {
  import opened Machine
  import opened Wire
  import opened Sequences

  /** The part of a segment that carries application data: the fragment's countdown and its bytes. */
  datatype Piece = Piece(frg: nat, data: seq<byte>)

  function PieceOf(s: Segment): Piece {
    Piece(s.frg, s.data)
  }

  function Pieces(q: seq<Segment>): seq<Piece> {
    seq(|q|, i requires 0 <= i < |q| => PieceOf(q[i]))
  }

  lemma PiecesAppend(a: seq<Segment>, b: seq<Segment>)
    ensures Pieces(a + b) == Pieces(a) + Pieces(b)
  {
  }

  // ---------- Fragmentation

  /** The number of fragments of a message of `n` bytes, as the sender computes it. */
  function Count(mss: nat, n: nat): nat
    requires mss > 0
  {
    if n <= mss then 1 else (n + mss - 1) / mss
  }

  /** `Count` is the least number of blocks of `mss` bytes that hold `n > 0` bytes. */
  lemma CountIsCeiling(mss: nat, n: nat)
    requires mss > 0 && n > 0
    ensures (Count(mss, n) - 1) * mss < n <= Count(mss, n) * mss
  {
    var q := (n + mss - 1) / mss;
    DivisionBounds(n + mss - 1, mss);
    assert (q - 1) * mss == q * mss - mss;
  }

  lemma DivisionBounds(x: nat, m: nat)
    requires m > 0
    ensures x / m * m <= x < x / m * m + m
  {
    assert x == x / m * m + x % m;
  }

  lemma CountStep(mss: nat, n: nat)
    requires mss > 0 && n > mss
    ensures Count(mss, n) == 1 + Count(mss, n - mss)
  {
    CountIsCeiling(mss, n);
    CountIsCeiling(mss, n - mss);
    var c, d := Count(mss, n), 1 + Count(mss, n - mss);
    assert (d - 1) * mss == (d - 2) * mss + mss && d * mss == (d - 1) * mss + mss;
    if c < d {
      Monotone(c, d - 1, mss);
    } else if d < c {
      Monotone(d, c - 1, mss);
    }
  }

  /** The fragments of a message: full blocks, the last one possibly shorter, counting down to zero. */
  function Fragment(mss: nat, msg: seq<byte>): seq<Piece>
    requires mss > 0
  {
    if |msg| <= mss then [Piece(0, msg)]
    else [Piece(Count(mss, |msg|) - 1, msg[..mss])] + Fragment(mss, msg[mss..])
  }

  lemma Multiple(i: nat, mss: nat)
    ensures 0 <= i * mss && (i + 1) * mss == i * mss + mss
  {
  }

  /** The sender accepts non-empty messages of at most 255 fragments. */
  predicate Sendable(mss: nat, msg: seq<byte>)
    requires mss > 0
  {
    msg != [] && Count(mss, |msg|) <= 255
  }

  /** Fragment `i` of `n` is block `i` of the message, is not empty, has at most `mss` bytes and carries
      the countdown `n - 1 - i`. */
  lemma {:induction false} FragmentShape(mss: nat, msg: seq<byte>, i: nat)
    requires mss > 0 && msg != []
    ensures |Fragment(mss, msg)| == Count(mss, |msg|)
    ensures i < |Fragment(mss, msg)| ==>
              var p := Fragment(mss, msg)[i];
              && p.frg == Count(mss, |msg|) - 1 - i
              && 0 < |p.data| <= mss
              && 0 <= i * mss <= Min((i + 1) * mss, |msg|)
              && p.data == msg[i * mss..Min((i + 1) * mss, |msg|)]
  {
    if |msg| > mss {
      CountStep(mss, |msg|);
      if i == 0 {
        FragmentShape(mss, msg[mss..], 0);
      } else {
        FragmentShape(mss, msg[mss..], i - 1);
        Multiple(i - 1, mss);
        Multiple(i, mss);
        if i < |Fragment(mss, msg)| {
          assert Fragment(mss, msg)[i] == Fragment(mss, msg[mss..])[i - 1];
        }
      }
    }
  }

  // ---------- Reassembly

  /** How many pieces the receiver takes from the front of its queue: up to and including the first one with
      countdown zero, or all of them. */
  function Span(p: seq<Piece>): (r: nat)
    ensures r <= |p|
  {
    if p == [] then 0 else if p[0].frg == 0 then 1 else 1 + Span(p[1..])
  }

  function Join(p: seq<Piece>): seq<byte> {
    if p == [] then [] else p[0].data + Join(p[1..])
  }

  lemma {:induction false} JoinAppend(a: seq<Piece>, b: seq<Piece>)
    ensures Join(a + b) == Join(a) + Join(b)
  {
    if a == [] {
      NilAppend(b);
    } else {
      JoinAppend(a[1..], b);
      ConsAppend(a, b);
      Assoc(a[0].data, Join(a[1..]), Join(b));
    }
  }

  /** The size of the next message, when the receiver considers it complete. The countdown is an 8-bit
      number, and so is its successor. */
  function PeekSize(p: seq<Piece>): Option<nat> {
    if p == [] then None
    else if p[0].frg == 0 then Some(|p[0].data|)
    else if |p| < (p[0].frg + 1) % 0x100 then None
    else Some(|Join(p[..Span(p)])|)
  }

  /** Whatever is in the queue, the size announced is the size of what is taken: the receiver's internal
      consistency check cannot fail. */
  lemma PeekAgreesWithTake(p: seq<Piece>)
    requires PeekSize(p).Some?
    ensures PeekSize(p).value == |Join(p[..Span(p)])|
    ensures Span(p) > 0
  {
    if p[0].frg == 0 {
      assert p[..1] == [p[0]];
      assert Join(p[..1]) == p[0].data + Join([]);
    }
  }

  /** Reassembly undoes fragmentation, whatever follows in the queue. */
  lemma {:induction false} ReassembleUndoesFragment(mss: nat, msg: seq<byte>, rest: seq<Piece>)
    requires mss > 0 && msg != []
    ensures var p := Fragment(mss, msg) + rest;
            && Span(p) == |Fragment(mss, msg)|
            && p[..Span(p)] == Fragment(mss, msg)
            && Join(p[..Span(p)]) == msg
    ensures Sendable(mss, msg) ==> PeekSize(Fragment(mss, msg) + rest) == Some(|msg|)
    decreases |msg|
  {
    var f := Fragment(mss, msg);
    var p := f + rest;
    FragmentShape(mss, msg, 0);
    if |msg| <= mss {
      assert Join(f) == msg + Join([]);
      assert p[..1] == f;
    } else {
      var tail := msg[mss..];
      ReassembleUndoesFragment(mss, tail, rest);
      CountStep(mss, |msg|);
      CountIsCeiling(mss, |tail|);
      var g := Fragment(mss, tail);
      assert p[1..] == g + rest;
      assert (g + rest)[..|g|] == g;
      assert p[..|f|] == f && f[1..] == g;
      assert msg == msg[..mss] + tail;
    }
  }

  /** A message of which only some fragments have arrived is not announced. */
  lemma IncompleteIsNotAnnounced(mss: nat, msg: seq<byte>, k: nat)
    requires mss > 0 && Sendable(mss, msg) && k < |Fragment(mss, msg)|
    ensures PeekSize(Fragment(mss, msg)[..k]).None?
  {
    FragmentShape(mss, msg, 0);
  }

  // ---------- Streams of messages

  /** All the fragments of a list of messages, in order. */
  function Stream(mss: nat, msgs: seq<seq<byte>>): seq<Piece>
    requires mss > 0
  {
    if msgs == [] then [] else Fragment(mss, msgs[0]) + Stream(mss, msgs[1..])
  }

  lemma {:induction false} StreamAppend(mss: nat, a: seq<seq<byte>>, b: seq<seq<byte>>)
    requires mss > 0
    ensures Stream(mss, a + b) == Stream(mss, a) + Stream(mss, b)
  {
    if a == [] {
      assert a + b == b;
    } else {
      StreamAppend(mss, a[1..], b);
      assert (a + b)[1..] == a[1..] + b;
    }
  }

  lemma StreamSnoc(mss: nat, a: seq<seq<byte>>, msg: seq<byte>)
    requires mss > 0
    ensures Stream(mss, a + [msg]) == Stream(mss, a) + Fragment(mss, msg)
  {
    StreamAppend(mss, a, [msg]);
    assert Stream(mss, [msg]) == Fragment(mss, msg) + Stream(mss, []);
  }

  predicate AllSendable(mss: nat, msgs: seq<seq<byte>>)
    requires mss > 0
  {
    forall i :: 0 <= i < |msgs| ==> Sendable(mss, msgs[i])
  }

  /** The stream determines the messages: two lists of messages with the same fragments are equal. */
  lemma {:induction false} StreamInjective(mss: nat, a: seq<seq<byte>>, b: seq<seq<byte>>)
    requires mss > 0 && AllSendable(mss, a) && AllSendable(mss, b)
    requires Stream(mss, a) == Stream(mss, b)
    ensures a == b
  {
    if a == [] || b == [] {
      if a != [] { FragmentShape(mss, a[0], 0); }
      if b != [] { FragmentShape(mss, b[0], 0); }
    } else {
      var f, g := Fragment(mss, a[0]), Fragment(mss, b[0]);
      var x, y := Stream(mss, a[1..]), Stream(mss, b[1..]);
      ReassembleUndoesFragment(mss, a[0], x);
      ReassembleUndoesFragment(mss, b[0], y);
      assert (f + x)[|f|..] == x && (g + y)[|g|..] == y;
      StreamInjective(mss, a[1..], b[1..]);
      assert a == [a[0]] + a[1..] && b == [b[0]] + b[1..];
    }
  }
}
