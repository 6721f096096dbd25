/** Round-trip estimation and the retransmission timeout of the congestion
    controller (the estimator of section 2 of RFC 6298), in integer microseconds
    with division that truncates toward zero. */
module RttEstimator {

  /** Go's integer division. */
  function TruncDiv(a: int, b: int): int
    requires b > 0
  {
    if a >= 0 then a / b else -((-a) / b)
  }

  const MIN_TIMEOUT: int := 500_000
  const INIT_TIMEOUT: int := 1_000_000
  const MIN_PACKET_SIZE: int := 150

  function Abs(a: int): int {
    if a < 0 then -a else a
  }

  function Max(a: int, b: int): int {
    if a > b then a else b
  }

  /** Smoothed round trip, its variance and the timeout. A round trip of zero
      means that there is no estimate yet. */
  datatype Estimate = Estimate(rtt: int, rttVar: int, timeout: int)

  function OnSample(e: Estimate, sample: int): Estimate {
    var first := e.rtt == 0;
    var rttVar := if first then TruncDiv(sample, 2) else e.rttVar + TruncDiv(Abs(e.rtt - sample) - e.rttVar, 4);
    var rtt := if first then sample else e.rtt + TruncDiv(sample - e.rtt, 8);
    Estimate(rtt, rttVar, Max(MIN_TIMEOUT, rtt + rttVar * 4))
  }

  class CongestionController {
    var maxWindow: int
    var rtt: int
    var rttVar: int
    var timeout: int

    function State(): Estimate
      reads this
    {
      Estimate(rtt, rttVar, timeout)
    }

    constructor ()
      ensures State() == Estimate(0, 0, INIT_TIMEOUT) && maxWindow == 3 * 1400
    {
      maxWindow, rtt, rttVar, timeout := 3 * 1400, 0, 0, INIT_TIMEOUT;
    }

    method OnAck(rttUs: int)
      modifies this
      ensures State() == OnSample(old(State()), rttUs) && maxWindow == old(maxWindow)
    {
      if rtt == 0 {
        rtt := rttUs;
        rttVar := TruncDiv(rttUs, 2);
      } else {
        var delta := rtt - rttUs;
        if delta < 0 {
          delta := -delta;
        }
        rttVar := rttVar + TruncDiv(delta - rttVar, 4);
        rtt := rtt + TruncDiv(rttUs - rtt, 8);
      }
      timeout := rtt + rttVar * 4;
      if timeout < MIN_TIMEOUT {
        timeout := MIN_TIMEOUT;
      }
    }

    /** The window falls to its minimum and the timeout doubles; the estimate is
        untouched, so the next sample forgets the backoff. */
    method OnTimeout()
      modifies this
      ensures maxWindow == MIN_PACKET_SIZE
      ensures State() == old(State()).(timeout := old(timeout) * 2)
    {
      maxWindow := MIN_PACKET_SIZE;
      timeout := timeout * 2;
    }
  }

  /** The bound on the variance for samples in `[lo, hi]`. */
  function Spread(lo: int, hi: int): int {
    Max(TruncDiv(hi, 2), hi - lo)
  }

  /** Truncated steps toward a value in the same range stay in the range. */
  lemma EighthStepStays(x: int, target: int, lo: int, hi: int)
    requires lo <= x <= hi && lo <= target <= hi
    ensures lo <= x + TruncDiv(target - x, 8) <= hi
  {
  }

  lemma QuarterStepStays(x: int, target: int, lo: int, hi: int)
    requires lo <= x <= hi && lo <= target <= hi
    ensures lo <= x + TruncDiv(target - x, 4) <= hi
  {
  }

  ghost predicate Bounded(e: Estimate, lo: int, hi: int) {
    && lo <= e.rtt <= hi
    && 0 <= e.rttVar <= Spread(lo, hi)
    && MIN_TIMEOUT <= e.timeout <= Max(MIN_TIMEOUT, hi + 4 * Spread(lo, hi))
  }

  function AfterSamples(e: Estimate, samples: seq<int>): Estimate {
    if samples == [] then e else OnSample(AfterSamples(e, samples[..|samples| - 1]), samples[|samples| - 1])
  }

  lemma SampleBounded(e: Estimate, sample: int, lo: int, hi: int)
    requires 0 <= lo <= sample <= hi
    requires e.rtt == 0 || Bounded(e, lo, hi)
    ensures Bounded(OnSample(e, sample), lo, hi)
  {
    if e.rtt == 0 {
      assert 0 <= TruncDiv(sample, 2) <= TruncDiv(hi, 2);
    } else {
      EighthStepStays(e.rtt, sample, lo, hi);
      QuarterStepStays(e.rttVar, Abs(e.rtt - sample), 0, Spread(lo, hi));
    }
  }

  /** After any nonempty run of samples in `[lo, hi]`, from a new controller, the
      smoothed round trip lies in `[lo, hi]`, the variance in `[0, spread]`, and
      the timeout between 500 ms and the larger of that and `hi + 4 * spread`. */
  lemma {:induction false} SamplesBounded(samples: seq<int>, lo: int, hi: int)
    requires samples != [] && 0 <= lo
    requires forall i :: 0 <= i < |samples| ==> lo <= samples[i] <= hi
    ensures Bounded(AfterSamples(Estimate(0, 0, INIT_TIMEOUT), samples), lo, hi)
  {
    var n := |samples| - 1;
    if n > 0 {
      SamplesBounded(samples[..n], lo, hi);
    }
    SampleBounded(AfterSamples(Estimate(0, 0, INIT_TIMEOUT), samples[..n]), samples[n], lo, hi);
  }

  // ---- Timeouts in between ----

  datatype Event = Ack(sample: int) | Timeout

  function AfterEvent(e: Estimate, event: Event): Estimate {
    match event
    case Ack(sample) => OnSample(e, sample)
    case Timeout => e.(timeout := e.timeout * 2)
  }

  function AfterEvents(e: Estimate, events: seq<Event>): Estimate {
    if events == [] then e else AfterEvent(AfterEvents(e, events[..|events| - 1]), events[|events| - 1])
  }

  function Samples(events: seq<Event>): seq<int> {
    if events == [] then []
    else
      var init, last := events[..|events| - 1], events[|events| - 1];
      if last.Ack? then Samples(init) + [last.sample] else Samples(init)
  }

  /** Timeouts never disturb the estimate: with them or without, the samples give
      the same round trip and variance, and after an acknowledgement the same
      timeout. */
  lemma {:induction false} TimeoutsKeepEstimate(e: Estimate, events: seq<Event>)
    ensures var with, without := AfterEvents(e, events), AfterSamples(e, Samples(events));
            && with.rtt == without.rtt && with.rttVar == without.rttVar
            && (events != [] && events[|events| - 1].Ack? ==> with.timeout == without.timeout)
  {
    if events != [] {
      var init, last := events[..|events| - 1], events[|events| - 1];
      TimeoutsKeepEstimate(e, init);
      if last.Ack? {
        assert Samples(events)[..|Samples(events)| - 1] == Samples(init);
      }
    }
  }

  /** A sample draws the round trip toward it without overshooting, and moves it
      exactly when they are at least 8 us apart: truncation stops the approach
      there. */
  lemma RttApproaches(e: Estimate, sample: int)
    requires e.rtt > 0 && sample >= 0
    ensures var e' := OnSample(e, sample);
            && Abs(sample - e'.rtt) <= Abs(sample - e.rtt)
            && (Abs(sample - e'.rtt) == Abs(sample - e.rtt) <==> Abs(sample - e.rtt) < 8)
            && (e.rtt <= sample ==> e.rtt <= e'.rtt <= sample) && (sample <= e.rtt ==> sample <= e'.rtt <= e.rtt)
  {
  }

  // ---- The steps in numbers ----

  /** A step of a `d`-th of the way, cut toward zero. */
  ghost predicate Moves(x: int, x': int, target: int, d: int) {
    var way, step := target - x, x' - x;
    if way >= 0 then 0 <= step && d * step <= way < d * (step + 1)
    else step <= 0 && d * (step - 1) < way <= d * step
  }

  /** The first sample sets the round trip, and the variance to half of it; every
      later one moves the variance a quarter of the way to the distance between
      estimate and sample, and the estimate an eighth of the way to the sample. The
      timeout is the estimate and four times the variance, but at least 500 ms. */
  lemma SampleMoves(e: Estimate, sample: int)
    ensures var e' := OnSample(e, sample);
            && (e.rtt == 0 ==> e'.rtt == sample && Moves(0, e'.rttVar, sample, 2))
            && (e.rtt != 0 ==>
                  && Moves(e.rttVar, e'.rttVar, if e.rtt >= sample then e.rtt - sample else sample - e.rtt, 4)
                  && Moves(e.rtt, e'.rtt, sample, 8))
            && e'.timeout == (if e'.rtt + 4 * e'.rttVar > 500_000 then e'.rtt + 4 * e'.rttVar else 500_000)
  {
  }
}
