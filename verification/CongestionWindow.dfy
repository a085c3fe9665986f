/** The congestion window, in the style of section 3.1 of RFC 5681: `cwnd` counts segments, `incr` the bytes
    they stand for. */
module CongestionWindow {
  import opened Machine

  const THRESH_INIT := 2
  const THRESH_MIN := 2

  datatype Congestion = Congestion(cwnd: nat, incr: nat, ssthresh: nat)

  /** `cwnd` is the whole number of segments in `incr` bytes. */
  predicate CcOk(c: Congestion, mss: nat) {
    c.cwnd * mss <= c.incr < (c.cwnd + 1) * mss && c.ssthresh >= THRESH_MIN
  }

  /** The additive growth of congestion avoidance, in bytes. */
  function Growth(base: nat, mss: nat): nat
    requires base > 0
  {
    mss * mss / base + mss / 16
  }

  function Grow(c: Congestion, mss: nat): Congestion
    requires mss > 0
  {
    if c.cwnd < c.ssthresh then c.(cwnd := c.cwnd + 1, incr := c.incr + mss)
    else
      var base := if c.incr < mss then mss else c.incr;
      var incr := base + Growth(base, mss);
      c.(cwnd := if (c.cwnd + 1) * mss <= incr then c.cwnd + 1 else c.cwnd, incr := incr)
  }

  function Clamp(c: Congestion, rmtWnd: nat, mss: nat): Congestion {
    if c.cwnd > rmtWnd then c.(cwnd := rmtWnd, incr := rmtWnd * mss) else c
  }

  /** What an input that acknowledged new data does. */
  function OnAdvance(c: Congestion, rmtWnd: nat, mss: nat): Congestion
    requires mss > 0
  {
    if c.cwnd < rmtWnd then Clamp(Grow(c, mss), rmtWnd, mss) else c
  }

  /** The threshold after a loss with `n` segments outstanding or allowed. */
  function Halved(n: nat): nat {
    Max(n / 2, THRESH_MIN)
  }

  /** What a flush does after (re)transmitting: `change` after a fast retransmission, `lost` after a timeout. */
  function OnFlush(c: Congestion, change: bool, lost: bool, resent: nat, inflight: nat, limit: nat,
                   mss: nat): Congestion
  {
    var c1 := if change then
                var t := Halved(inflight);
                Congestion(t + resent, (t + resent) * mss, t)
              else c;
    var c2 := if lost then Congestion(1, mss, Halved(limit)) else c1;
    if c2.cwnd < 1 then c2.(cwnd := 1, incr := mss) else c2
  }

  lemma Cancel(a: int, b: int, m: nat)
    requires a * m <= b * m && m > 0
    ensures a <= b
  {
    if b + 1 <= a {
      Monotone(b + 1, a, m);
    }
  }

  lemma CancelStrict(a: int, b: int, m: nat)
    requires a * m < b * m
    ensures a < b
  {
    if b <= a {
      Monotone(b, a, m);
    }
  }

  /** From two segments on, the growth is between a sixteenth of a segment and less than a whole one. */
  lemma GrowthBounds(base: nat, mss: nat)
    requires mss > 0 && base >= 2 * mss
    ensures mss / 16 <= Growth(base, mss) < mss
  {
    var q := mss * mss / base;
    Quotient(mss * mss, base);
    Monotone(2 * mss, base, q);
    assert (2 * q) * mss == (2 * mss) * q;
    Cancel(2 * q, mss, mss);
  }

  lemma Quotient(x: nat, base: nat)
    requires base > 0
    ensures x / base >= 0 && base * (x / base) <= x
  {
  }

  /** At the threshold or above, the window stands for at least two segments. */
  lemma TwoSegments(c: Congestion, mss: nat)
    requires CcOk(c, mss) && c.cwnd >= c.ssthresh
    ensures c.incr >= 2 * mss
  {
    Monotone(2, c.cwnd, mss);
  }

  /** An input keeps the window consistent, raises it by at most one and never past the peer's window, and
      always makes at least a sixteenth of a segment of progress below that window. */
  lemma AdvanceMeaning(c: Congestion, rmtWnd: nat, mss: nat)
    requires mss > 0 && CcOk(c, mss)
    ensures var c' := OnAdvance(c, rmtWnd, mss);
            && CcOk(c', mss) && c'.ssthresh == c.ssthresh
            && c.cwnd <= c'.cwnd <= c.cwnd + 1
            && (c'.cwnd > c.cwnd ==> c'.cwnd <= rmtWnd)
            && (c.cwnd < rmtWnd ==> c'.incr >= c.incr + mss / 16)
            && (c.cwnd >= rmtWnd ==> c' == c)
  {
    hide Growth;
    Successor(c.cwnd + 1, mss);
    Successor(c.cwnd, mss);
    if c.cwnd >= c.ssthresh {
      TwoSegments(c, mss);
      GrowthBounds(c.incr, mss);
    }
  }

  /** The step itself, below the peer's window. Below the threshold it is one whole segment; from the threshold on it
      is mss*mss/incr bytes, rounded down, and a sixteenth of a segment, and `cwnd` is the whole number of segments in
      the sum. */
  lemma StepExactly(c: Congestion, rmtWnd: nat, mss: nat)
    requires mss > 0 && CcOk(c, mss) && c.cwnd < rmtWnd
    ensures var c' := OnAdvance(c, rmtWnd, mss);
            && (c.cwnd < c.ssthresh ==> c' == Congestion(c.cwnd + 1, c.incr + mss, c.ssthresh))
            && (c.cwnd >= c.ssthresh ==>
                  var growth := c'.incr - c.incr - mss / 16;
                  && growth >= 0 && growth * c.incr <= mss * mss < (growth + 1) * c.incr
                  && c'.cwnd * mss <= c'.incr < (c'.cwnd + 1) * mss && c'.ssthresh == c.ssthresh)
  {
    hide Growth;
    AdvanceMeaning(c, rmtWnd, mss);
    if c.cwnd >= c.ssthresh {
      TwoSegments(c, mss);
      GrowthBounds(c.incr, mss);
      GrowthIsQuotient(c.incr, mss);
    }
  }

  lemma GrowthIsQuotient(base: nat, mss: nat)
    requires base > 0
    ensures var q := Growth(base, mss) - mss / 16; 0 <= q && q * base <= mss * mss < (q + 1) * base
  {
    var q := mss * mss / base;
    Quotient(mss * mss, base);
    assert mss * mss == base * q + mss * mss % base;
    Successor(q, base);
  }

  /** A flush keeps the window consistent and leaves it at least one. A timeout leaves one segment and half the allowed
      window, a fast retransmission alone half the outstanding one, as threshold. */
  lemma FlushMeaning(c: Congestion, change: bool, lost: bool, resent: nat, inflight: nat, limit: nat, mss: nat)
    requires mss > 0 && CcOk(c, mss)
    ensures var c' := OnFlush(c, change, lost, resent, inflight, limit, mss);
            && CcOk(c', mss) && c'.cwnd >= 1
            && (lost ==> c'.cwnd == 1)
            && (lost ==> c' == Congestion(1, mss, if limit >= 4 then limit / 2 else 2))
            && (change && !lost ==>
                  && c'.ssthresh == (if inflight >= 4 then inflight / 2 else 2)
                  && c'.cwnd == c'.ssthresh + resent && c'.incr == c'.cwnd * mss)
            && (!change && !lost ==> c' == if c.cwnd >= 1 then c else Congestion(1, mss, c.ssthresh))
  {
    var t := Halved(inflight);
    assert (t + resent + 1) * mss == (t + resent) * mss + mss;
  }

  /** Below a 16-bit peer window and with a segment size below 2^16, no 32-bit sum or product of the step
      overflows. */
  lemma AdvanceFitsWord(c: Congestion, rmtWnd: u16, mss: nat)
    requires 0 < mss < 0x1_0000 && CcOk(c, mss) && c.cwnd < rmtWnd
    ensures c.incr + mss < U32_LIMIT && mss * mss < U32_LIMIT && rmtWnd * mss < U32_LIMIT
    ensures (c.cwnd + 1) * mss < U32_LIMIT
    ensures c.cwnd >= c.ssthresh ==> c.incr >= mss && c.incr + Growth(c.incr, mss) < U32_LIMIT
  {
    Monotone(c.cwnd + 1, 0xFFFF, mss);
    Monotone(mss, 0xFFFF, mss);
    Monotone(rmtWnd, 0xFFFF, mss);
    if c.cwnd >= c.ssthresh {
      TwoSegments(c, mss);
      GrowthBounds(c.incr, mss);
    }
  }

  /** After a fast retransmission the new window and its product with the segment size fit 32 bits if and only if
      the window is at most (2^32-1)/mss. */
  lemma FlushFitsWord(c: Congestion, lost: bool, resent: nat, inflight: nat, limit: nat, mss: nat)
    requires mss > 0
    ensures var w := Halved(inflight) + resent;
            (w < U32_LIMIT && w * mss < U32_LIMIT) <==> w <= (U32_LIMIT - 1) / mss
    ensures !lost ==> var c' := OnFlush(c, true, lost, resent, inflight, limit, mss);
            c'.cwnd == Halved(inflight) + resent && c'.incr == c'.cwnd * mss
  {
    var w, top := Halved(inflight) + resent, (U32_LIMIT - 1) / mss;
    Quotient(U32_LIMIT - 1, mss);
    assert U32_LIMIT - 1 == mss * top + (U32_LIMIT - 1) % mss;
    Successor(top, mss);
    Monotone(1, mss, w);
    if w <= top {
      Monotone(w, top, mss);
    } else {
      Monotone(top + 1, w, mss);
    }
  }

  /** They fit with at most 65535 segments outstanding, a fast-retransmit count up to 2^15 and a segment size below
      2^16; and with the count that stands for "off", 2^32-1, they never do. */
  lemma FlushFitsUsually(resent: nat, inflight: nat, mss: nat)
    requires 0 < mss < 0x1_0000 && inflight <= 0xFFFF
    ensures resent <= 0x8000 ==> Halved(inflight) + resent <= (U32_LIMIT - 1) / mss
    ensures resent == U32_LIMIT - 1 ==> Halved(inflight) + resent > (U32_LIMIT - 1) / mss
  {
    var w := Halved(inflight) + resent;
    FlushFitsWord(Congestion(0, 0, THRESH_MIN), false, resent, inflight, 0, mss);
    if resent <= 0x8000 {
      Monotone(w, 0xFFFF, mss);
      Monotone(mss, 0xFFFF, 0xFFFF);
    }
  }

  lemma Successor(n: int, m: nat)
    ensures (n + 1) * m == n * m + m
  {
  }

  // ---------- Several advances in a row

  function Advances(c: Congestion, rmtWnds: seq<nat>, mss: nat): Congestion
    requires mss > 0
    decreases |rmtWnds|
  {
    if rmtWnds == [] then c else Advances(OnAdvance(c, rmtWnds[0], mss), rmtWnds[1..], mss)
  }

  /** At every one of the inputs the congestion window is below the window the peer announced last. */
  predicate AlwaysBelow(c: Congestion, rmtWnds: seq<nat>, mss: nat)
    requires mss > 0
    decreases |rmtWnds|
  {
    rmtWnds == [] || (c.cwnd < rmtWnds[0] && AlwaysBelow(OnAdvance(c, rmtWnds[0], mss), rmtWnds[1..], mss))
  }

  lemma {:induction false} AdvancesAddUp(c: Congestion, rmtWnds: seq<nat>, mss: nat)
    requires mss > 0 && CcOk(c, mss) && AlwaysBelow(c, rmtWnds, mss)
    ensures var c' := Advances(c, rmtWnds, mss);
            CcOk(c', mss) && c'.incr >= c.incr + |rmtWnds| * (mss / 16)
    decreases |rmtWnds|
  {
    if rmtWnds != [] {
      var m := OnAdvance(c, rmtWnds[0], mss);
      AdvanceMeaning(c, rmtWnds[0], mss);
      AdvancesAddUp(m, rmtWnds[1..], mss);
      Successor(|rmtWnds| - 1, mss / 16);
    }
  }

  /** Enough advancing inputs in a row, with the window below the peer's, raise it. */
  lemma AdvancesRaise(c: Congestion, rmtWnds: seq<nat>, mss: nat)
    requires mss > 0 && CcOk(c, mss) && AlwaysBelow(c, rmtWnds, mss)
    requires |rmtWnds| * (mss / 16) >= mss
    ensures Advances(c, rmtWnds, mss).cwnd >= c.cwnd + 1
  {
    AdvancesAddUp(c, rmtWnds, mss);
    var c' := Advances(c, rmtWnds, mss);
    Successor(c.cwnd, mss);
    CancelStrict(c.cwnd + 1, c'.cwnd + 1, mss);
  }

  /** With the default segment size of 1376 bytes, sixteen do. */
  lemma SixteenAdvancesRaise(c: Congestion, rmtWnds: seq<nat>)
    requires CcOk(c, 1376) && AlwaysBelow(c, rmtWnds, 1376) && |rmtWnds| == 16
    ensures Advances(c, rmtWnds, 1376).cwnd >= c.cwnd + 1
  {
    AdvancesRaise(c, rmtWnds, 1376);
  }
}
