/** The round-trip estimator, in the style of section 2 of RFC 6298, on 32-bit words. */
module RttEstimator {
  import opened Machine

  const RTO_NDL := 30
  const RTO_MIN := 100
  const RTO_DEF := 200
  const RTO_MAX := 60_000

  datatype Rtt = Rtt(srtt: u32, rttval: u32, rto: u32)

  function Bound(lower: u32, v: u32, upper: u32): u32 {
    if lower > v then (if lower < upper then lower else upper)
    else if v < upper then v else upper
  }

  function Distance(x: nat, y: nat): nat {
    if x > y then x - y else y - x
  }

  /** One sample. Sums and products are truncated to 32 bits. */
  function TakeSample(r: Rtt, rtt: u32, interval: u32, minRto: u32): Rtt {
    var rttval: u32 := if r.srtt == 0 then rtt / 2 else W32(3 * r.rttval + Distance(rtt, r.srtt)) / 4;
    var srtt: u32 := if r.srtt == 0 then rtt else Max(1, W32(7 * r.srtt + rtt) / 8);
    var rto := W32(srtt + Max(interval, W32(4 * rttval)));
    Rtt(srtt, rttval, Bound(minRto, rto, RTO_MAX))
  }

  function TakeSamples(r: Rtt, samples: seq<u32>, interval: u32, minRto: u32): Rtt
    decreases |samples|
  {
    if samples == [] then r
    else TakeSamples(TakeSample(r, samples[0], interval, minRto), samples[1..], interval, minRto)
  }

  predicate Bounded(r: Rtt, limit: nat) {
    r.srtt <= limit && r.rttval <= limit
  }

  /** The largest bound under which no sum of the estimator reaches 2^32. */
  const SAFE_RTT := (U32_LIMIT - 1) / 8

  /** While samples stay within the bound, so do both estimates; no sum is truncated; and each estimate is the
      weighted mean of RFC 6298, equations (2.3), rounded down (and the smoothed time kept above zero). The timeout
      is the smoothed time plus four variations, but at least one interval, held between the minimum and a minute. */
  lemma SampleMeaning(r: Rtt, rtt: u32, limit: nat, interval: u32, minRto: u32)
    requires Bounded(r, limit) && rtt <= limit <= SAFE_RTT && interval <= 5000
    ensures var r' := TakeSample(r, rtt, interval, minRto);
            && Bounded(r', limit)
            && (r.srtt == 0 ==> r'.srtt == rtt && r'.rttval == rtt / 2)
            && (r.srtt != 0 ==>
                  && 0 <= 3 * r.rttval + Distance(r.srtt, rtt) - 4 * r'.rttval < 4
                  && (if 7 * r.srtt + rtt < 8 then r'.srtt == 1 else 0 <= 7 * r.srtt + rtt - 8 * r'.srtt < 8))
            && (minRto <= 60_000 ==>
                  var rto := r'.srtt + (if interval > 4 * r'.rttval then interval else 4 * r'.rttval);
                  r'.rto == if rto < minRto then minRto else if rto > 60_000 then 60_000 else rto)
            && 7 * r.srtt + rtt < U32_LIMIT && 3 * r.rttval + Distance(r.srtt, rtt) < U32_LIMIT
            && r'.srtt + Max(interval, 4 * r'.rttval) < U32_LIMIT
  {
    var r' := TakeSample(r, rtt, interval, minRto);
    if r.srtt != 0 {
      Untruncated(3 * r.rttval + Distance(rtt, r.srtt));
      Untruncated(7 * r.srtt + rtt);
    }
    Untruncated(4 * r'.rttval);
    Untruncated(r'.srtt + Max(interval, 4 * r'.rttval));
  }

  /** Over any number of samples within the bound, both estimates stay within it. */
  lemma {:induction false} EstimatesStayBounded(r: Rtt, samples: seq<u32>, limit: nat, interval: u32, minRto: u32)
    requires Bounded(r, limit) && limit <= SAFE_RTT && interval <= 5000
    requires forall i :: 0 <= i < |samples| ==> samples[i] <= limit
    ensures Bounded(TakeSamples(r, samples, interval, minRto), limit)
    decreases |samples|
  {
    if samples != [] {
      SampleMeaning(r, samples[0], limit, interval, minRto);
      EstimatesStayBounded(TakeSample(r, samples[0], interval, minRto), samples[1..], limit, interval, minRto);
    }
  }

  /** The timeout is always between the configured minimum and the fixed maximum. */
  lemma TimeoutInRange(r: Rtt, rtt: u32, interval: u32, minRto: u32)
    requires minRto <= RTO_MAX
    ensures minRto <= TakeSample(r, rtt, interval, minRto).rto <= 60_000
  {
  }

  // ---------- Convergence under a constant sample

  function Steady(r: Rtt, rtt: u32, n: nat, interval: u32, minRto: u32): Rtt
    decreases n
  {
    if n == 0 then r else Steady(TakeSample(r, rtt, interval, minRto), rtt, n - 1, interval, minRto)
  }

  /** The smoothed time moves towards the sample and does not pass it. While it is 8 or more away it gets
      strictly closer. */
  lemma NoOvershoot(r: Rtt, rtt: u32, limit: nat, interval: u32, minRto: u32)
    requires Bounded(r, limit) && 1 <= rtt <= limit <= SAFE_RTT && interval <= 5000
    ensures var r' := TakeSample(r, rtt, interval, minRto);
            && (r.srtt <= rtt ==> r.srtt <= r'.srtt <= rtt)
            && (r.srtt >= rtt ==> r.srtt >= r'.srtt >= rtt)
            && (Distance(r.srtt, rtt) > 7 ==> Distance(r'.srtt, rtt) < Distance(r.srtt, rtt))
            && (Distance(r.srtt, rtt) <= 7 && r.srtt != 0 ==>
                  (r.rttval <= 7 ==> r'.rttval <= 7) && (r.rttval > 7 ==> r'.rttval < r.rttval))
  {
    SampleMeaning(r, rtt, limit, interval, minRto);
  }

  lemma {:induction false} SmoothedSettles(r: Rtt, rtt: u32, n: nat, limit: nat, interval: u32, minRto: u32)
    requires Bounded(r, limit) && 1 <= rtt <= limit <= SAFE_RTT && interval <= 5000
    ensures var r' := Steady(r, rtt, n, interval, minRto);
            && Bounded(r', limit)
            && (n > 0 ==> r'.srtt != 0)
            && Distance(r'.srtt, rtt) <= Max(7, Distance(r.srtt, rtt) - n)
            && (r.srtt <= rtt ==> r'.srtt <= rtt) && (r.srtt >= rtt ==> r'.srtt >= rtt)
    decreases n
  {
    if n > 0 {
      SampleMeaning(r, rtt, limit, interval, minRto);
      NoOvershoot(r, rtt, limit, interval, minRto);
      SmoothedSettles(TakeSample(r, rtt, interval, minRto), rtt, n - 1, limit, interval, minRto);
    }
  }

  lemma {:induction false} VariationSettles(r: Rtt, rtt: u32, n: nat, limit: nat, interval: u32, minRto: u32)
    requires Bounded(r, limit) && 1 <= rtt <= limit <= SAFE_RTT && interval <= 5000
    requires r.srtt != 0 && Distance(r.srtt, rtt) <= 7
    ensures Steady(r, rtt, n, interval, minRto).rttval <= Max(7, r.rttval - n)
    decreases n
  {
    if n > 0 {
      SampleMeaning(r, rtt, limit, interval, minRto);
      NoOvershoot(r, rtt, limit, interval, minRto);
      VariationSettles(TakeSample(r, rtt, interval, minRto), rtt, n - 1, limit, interval, minRto);
    }
  }

  lemma {:induction false} SteadySplits(r: Rtt, rtt: u32, m: nat, n: nat, interval: u32, minRto: u32)
    ensures Steady(r, rtt, m + n, interval, minRto)
         == Steady(Steady(r, rtt, m, interval, minRto), rtt, n, interval, minRto)
    decreases m
  {
    if m > 0 {
      SteadySplits(TakeSample(r, rtt, interval, minRto), rtt, m - 1, n, interval, minRto);
    }
  }

  /** From any estimates within the bound, a constant sample makes the smoothed time settle within 7 of it on
      the side it started from, and then the variation settle to at most 7; `2 * limit + 1` samples do. */
  lemma SteadyConverges(r: Rtt, rtt: u32, n: nat, limit: nat, interval: u32, minRto: u32)
    requires Bounded(r, limit) && 1 <= rtt <= limit <= SAFE_RTT && interval <= 5000
    requires n >= 2 * limit + 1
    ensures var r' := Steady(r, rtt, n, interval, minRto);
            && Distance(r'.srtt, rtt) <= 7 && r'.rttval <= 7
            && (r.srtt <= rtt ==> r'.srtt <= rtt) && (r.srtt >= rtt ==> r'.srtt >= rtt)
  {
    var m := limit + 1;
    SmoothedSettles(r, rtt, m, limit, interval, minRto);
    SmoothedSettles(r, rtt, n, limit, interval, minRto);
    SteadySplits(r, rtt, m, n - m, interval, minRto);
    VariationSettles(Steady(r, rtt, m, interval, minRto), rtt, n - m, limit, interval, minRto);
  }
}
