/** The token-bucket rate limiter, with exact arithmetic and a clock that never
    goes back. Sleeping is left to the clock: a turn of the waiting loop is one
    attempt at some later instant. */
module Throttle {
  import opened Bytes

  datatype Rate = Rate(rate: real, burst: nat) {
    ghost predicate Limited() {
      rate > 0.0 && burst as real == rate
    }
  }

  datatype Bucket = Bucket(tokens: real, lastTime: real)

  function Refill(r: Rate, b: Bucket, now: real): Bucket {
    var tokens := b.tokens + (now - b.lastTime) * r.rate;
    Bucket(if tokens > r.burst as real then r.burst as real else tokens, now)
  }

  function Grants(r: Rate, b: Bucket, now: real, n: nat): bool {
    Refill(r, b, now).tokens >= n as real
  }

  function Attempt(r: Rate, b: Bucket, now: real, n: nat): Bucket {
    var full := Refill(r, b, now);
    if full.tokens >= n as real then Bucket(full.tokens - n as real, now) else full
  }

  ghost predicate InBounds(r: Rate, b: Bucket) {
    0.0 <= b.tokens <= r.burst as real
  }

  class Limiter {
    const rate: Rate
    var tokens: real
    var lastTime: real

    function State(): Bucket
      reads this
    {
      Bucket(tokens, lastTime)
    }

    ghost predicate Valid()
      reads this
    {
      rate.rate != 0.0 ==> rate.Limited() && InBounds(rate, State())
    }

    /** A rate of zero or less means no limit. */
    constructor (bytesPerSec: int, now: real)
      ensures Valid()
      ensures bytesPerSec <= 0 ==> rate == Rate(0.0, 0)
      ensures bytesPerSec > 0 ==>
              rate == Rate(bytesPerSec as real, bytesPerSec) && State() == Bucket(bytesPerSec as real, now)
    {
      if bytesPerSec <= 0 {
        rate := Rate(0.0, 0);
        tokens := 0.0;
      } else {
        rate := Rate(bytesPerSec as real, bytesPerSec);
        tokens := bytesPerSec as real;
      }
      lastTime := now;
    }

    method RefillAt(now: real)
      requires Valid() && rate.rate != 0.0 && lastTime <= now
      modifies this
      ensures Valid() && State() == Refill(rate, old(State()), now)
    {
      RefillInBounds(rate, State(), now);
      var elapsed := now - lastTime;
      lastTime := now;
      tokens := tokens + elapsed * rate.rate;
      if tokens > rate.burst as real {
        tokens := rate.burst as real;
      }
    }

    /** One turn of the waiting loop: refill, then take the tokens if they are
        there. */
    method TryTake(n: nat, now: real) returns (granted: bool)
      requires Valid() && rate.rate != 0.0 && lastTime <= now
      modifies this
      ensures Valid() && State() == Attempt(rate, old(State()), now, n)
      ensures granted <==> Grants(rate, old(State()), now, n)
    {
      RefillAt(now);
      granted := tokens >= n as real;
      if granted {
        tokens := tokens - n as real;
      }
    }

    /** The waiting loop over the clock readings it makes; `used` readings are
        consumed. It ends with the first attempt that is granted, which takes the
        only tokens it takes; a request above the burst is never granted. */
    method Wait(n: nat, clock: seq<real>) returns (granted: bool, used: nat)
      requires Valid()
      requires rate.rate != 0.0 ==> Nondecreasing([lastTime] + clock)
      modifies this
      ensures Valid() && used <= |clock|
      ensures rate.rate == 0.0 ==> granted && used == 0 && State() == old(State())
      ensures rate.rate != 0.0 ==>
                && Waited(rate, old(State()), n, clock, used, granted, State())
                && (!granted ==> used == |clock|)
                && (n > rate.burst ==> !granted)
    {
      if rate.rate == 0.0 {
        return true, 0;
      }
      ghost var start := State();
      used := 0;
      granted := false;
      WaitStarts(rate, start, n, clock);
      while used < |clock|
        invariant used <= |clock|
        invariant Valid() && lastTime == if used == 0 then start.lastTime else clock[used - 1]
        invariant Waited(rate, start, n, clock, used, false, State())
      {
        ClockGoesOn(start.lastTime, clock, used);
        WaitGoesOn(rate, start, n, clock, used, State());
        OversizeNeverGranted(rate, State(), clock[used], n);
        granted := TryTake(n, clock[used]);
        used := used + 1;
        if granted {
          return;
        }
      }
    }
  }

  /** After `used` attempts at the readings of the clock: all were refused but the
      last one if it was granted, and only that one took its tokens. */
  ghost predicate Waited(r: Rate, b: Bucket, n: nat, clock: seq<real>, used: nat, granted: bool, after: Bucket) {
    && used <= |clock| && (granted ==> used > 0)
    && after == Final(r, b, Repeat(n, clock[..used]))
    && Total(r, b, Repeat(n, clock[..used])) == (if granted then n as real else 0.0)
    && (granted ==> GrantedAt(r, b, n, clock, used - 1))
    && (forall k :: 0 <= k < used - (if granted then 1 else 0) ==> !GrantedAt(r, b, n, clock, k))
  }

  lemma WaitStarts(r: Rate, b: Bucket, n: nat, clock: seq<real>)
    ensures Waited(r, b, n, clock, 0, false, b)
  {
    assert Repeat(n, clock[..0]) == [];
  }

  lemma WaitGoesOn(r: Rate, b: Bucket, n: nat, clock: seq<real>, used: nat, mid: Bucket)
    requires used < |clock| && Waited(r, b, n, clock, used, false, mid)
    ensures Waited(r, b, n, clock, used + 1, Grants(r, mid, clock[used], n), Attempt(r, mid, clock[used], n))
  {
    AttemptSnoc(r, b, n, clock, used);
  }

  // ---- Runs of attempts ----

  datatype Try = Try(now: real, n: nat)

  ghost predicate Nondecreasing(ts: seq<real>) {
    forall i, j :: 0 <= i < j < |ts| ==> ts[i] <= ts[j]
  }

  lemma ClockGoesOn(first: real, clock: seq<real>, used: nat)
    requires Nondecreasing([first] + clock) && used < |clock|
    ensures (if used == 0 then first else clock[used - 1]) <= clock[used]
  {
    var all := [first] + clock;
    assert all[used + 1] == clock[used] && all[used] == if used == 0 then first else clock[used - 1];
  }

  function Repeat(n: nat, clock: seq<real>): (r: seq<Try>)
    ensures |r| == |clock|
  {
    if clock == [] then [] else Repeat(n, clock[..|clock| - 1]) + [Try(clock[|clock| - 1], n)]
  }

  /** The bucket after a run, and the tokens it granted. */
  function Final(r: Rate, b: Bucket, tries: seq<Try>): Bucket {
    if tries == [] then b
    else
      var last := tries[|tries| - 1];
      Attempt(r, Final(r, b, tries[..|tries| - 1]), last.now, last.n)
  }

  function Total(r: Rate, b: Bucket, tries: seq<Try>): real {
    if tries == [] then 0.0
    else
      var init, last := tries[..|tries| - 1], tries[|tries| - 1];
      Total(r, b, init) + if Grants(r, Final(r, b, init), last.now, last.n) then last.n as real else 0.0
  }

  /** A request above the burst is never granted, at any instant of any run. */
  lemma OversizeNeverGranted(r: Rate, b: Bucket, now: real, n: nat)
    ensures n > r.burst ==> !Grants(r, b, now, n)
  {
  }

  /** Attempt `k` of the waiting loop is granted. */
  ghost predicate GrantedAt(r: Rate, b: Bucket, n: nat, clock: seq<real>, k: nat)
    requires k < |clock|
  {
    Grants(r, Final(r, b, Repeat(n, clock[..k])), clock[k], n)
  }

  /** Times never go back, starting from the bucket's own. */
  ghost predicate Forward(b: Bucket, tries: seq<Try>) {
    && (forall i :: 0 <= i < |tries| ==> b.lastTime <= tries[i].now)
    && (forall i, j :: 0 <= i < j < |tries| ==> tries[i].now <= tries[j].now)
  }

  lemma AttemptSnoc(r: Rate, b: Bucket, n: nat, clock: seq<real>, used: nat)
    requires used < |clock|
    ensures Repeat(n, clock[..used + 1])[..used] == Repeat(n, clock[..used])
    ensures Final(r, b, Repeat(n, clock[..used + 1])) ==
            Attempt(r, Final(r, b, Repeat(n, clock[..used])), clock[used], n)
    ensures Total(r, b, Repeat(n, clock[..used + 1])) ==
            Total(r, b, Repeat(n, clock[..used]))
            + if Grants(r, Final(r, b, Repeat(n, clock[..used])), clock[used], n) then n as real else 0.0
  {
    assert clock[..used + 1][..used] == clock[..used];
    var all := Repeat(n, clock[..used + 1]);
    assert all == Repeat(n, clock[..used]) + [Try(clock[used], n)];
    assert all[..used] == Repeat(n, clock[..used]);
  }

  lemma MulPositive(a: real, b: real)
    requires a >= 0.0 && b >= 0.0
    ensures a * b >= 0.0
  {
  }

  lemma RefillInBounds(r: Rate, b: Bucket, now: real)
    requires r.Limited() && InBounds(r, b) && b.lastTime <= now
    ensures InBounds(r, Refill(r, b, now))
    ensures b.tokens <= Refill(r, b, now).tokens <= b.tokens + (now - b.lastTime) * r.rate
  {
    var inflow := (now - b.lastTime) * r.rate;
    MulPositive(now - b.lastTime, r.rate);
    assert inflow >= 0.0;
    assert Refill(r, b, now).tokens ==
           if b.tokens + inflow > r.burst as real then r.burst as real else b.tokens + inflow;
  }

  lemma {:induction false} FinalTime(r: Rate, b: Bucket, tries: seq<Try>)
    ensures Final(r, b, tries).lastTime == if tries == [] then b.lastTime else tries[|tries| - 1].now
  {
  }

  /** From `b` to `b'`, what was granted together with what is left is covered by
      what was there and what flowed in. */
  ghost predicate Covered(r: Rate, b: Bucket, b': Bucket, granted: real) {
    granted + b'.tokens <= b.tokens + (b'.lastTime - b.lastTime) * r.rate
  }

  function Granted(r: Rate, b: Bucket, t: Try): real {
    if Grants(r, b, t.now, t.n) then t.n as real else 0.0
  }

  lemma AttemptCovered(r: Rate, b: Bucket, t: Try)
    requires r.Limited() && InBounds(r, b) && b.lastTime <= t.now
    ensures InBounds(r, Attempt(r, b, t.now, t.n)) && Covered(r, b, Attempt(r, b, t.now, t.n), Granted(r, b, t))
  {
    RefillInBounds(r, b, t.now);
  }

  lemma FlowAdds(t0: real, t1: real, t2: real, k: real)
    ensures (t1 - t0) * k + (t2 - t1) * k == (t2 - t0) * k
  {
  }

  lemma CoveredTrans(r: Rate, b: Bucket, b1: Bucket, g1: real, b2: Bucket, g2: real)
    requires Covered(r, b, b1, g1) && Covered(r, b1, b2, g2)
    ensures Covered(r, b, b2, g1 + g2)
  {
    FlowAdds(b.lastTime, b1.lastTime, b2.lastTime, r.rate);
  }

  lemma FinalSnoc(r: Rate, b: Bucket, tries: seq<Try>)
    requires tries != []
    ensures var init, last := tries[..|tries| - 1], tries[|tries| - 1];
            && Final(r, b, tries) == Attempt(r, Final(r, b, init), last.now, last.n)
            && Total(r, b, tries) == Total(r, b, init) + Granted(r, Final(r, b, init), last)
  {
  }

  /** Over any run by any callers tokens stay in `[0, burst]`, and the run is
      covered. */
  lemma {:induction false} RunIsCovered(r: Rate, b: Bucket, tries: seq<Try>)
    requires r.Limited() && InBounds(r, b) && Forward(b, tries)
    ensures InBounds(r, Final(r, b, tries)) && Covered(r, b, Final(r, b, tries), Total(r, b, tries))
  {
    if tries != [] {
      var init, last := tries[..|tries| - 1], tries[|tries| - 1];
      RunIsCovered(r, b, init);
      FinalTime(r, b, init);
      AttemptCovered(r, Final(r, b, init), last);
      FinalSnoc(r, b, tries);
      CoveredTrans(r, b, Final(r, b, init), Total(r, b, init), Final(r, b, tries), Granted(r, Final(r, b, init), last));
    }
  }

  lemma MulMonotone(x: real, y: real, k: real)
    requires x <= y && k >= 0.0
    ensures x * k <= y * k
  {
    MulPositive(y - x, k);
    FlowAdds(0.0, x, y, k);
  }

  /** Splitting off the first attempt of a run. */
  lemma {:induction false} FirstTry(r: Rate, b: Bucket, tries: seq<Try>)
    requires tries != []
    ensures var b1 := Attempt(r, b, tries[0].now, tries[0].n);
            && Final(r, b, tries) == Final(r, b1, tries[1..])
            && Total(r, b, tries) == Granted(r, b, tries[0]) + Total(r, b1, tries[1..])
    decreases |tries|
  {
    var n := |tries| - 1;
    if n > 0 {
      var init := tries[..n];
      FirstTry(r, b, init);
      assert tries[1..][..n - 1] == init[1..];
    } else {
      assert tries[..0] == [] && tries[1..] == [];
    }
  }

  /** After its first attempt a bucket owes at most the burst. */
  lemma FirstIsCapped(r: Rate, b: Bucket, t: Try)
    requires r.Limited() && InBounds(r, b) && b.lastTime <= t.now
    ensures var b1 := Attempt(r, b, t.now, t.n);
            InBounds(r, b1) && b1.lastTime == t.now && Granted(r, b, t) + b1.tokens <= r.burst as real
  {
    RefillInBounds(r, b, t.now);
  }

  lemma CoveredByBurst(r: Rate, b1: Bucket, end: Bucket, first: real, rest: real, from: real, to: real)
    requires r.Limited() && from <= b1.lastTime <= end.lastTime <= to && 0.0 <= end.tokens
    requires first + b1.tokens <= r.burst as real && Covered(r, b1, end, rest)
    ensures first + rest <= r.burst as real + (to - from) * r.rate
  {
    MulMonotone(end.lastTime - b1.lastTime, to - from, r.rate);
  }

  /** Between any two instants `from` and `to`, whoever asks and whatever the
      bucket held, at most a burst plus the rate times the elapsed time is
      granted. */
  lemma GrantedBetween(r: Rate, b: Bucket, tries: seq<Try>, from: real, to: real)
    requires r.Limited() && InBounds(r, b) && Forward(b, tries)
    requires from <= to && forall i :: 0 <= i < |tries| ==> from <= tries[i].now <= to
    ensures Total(r, b, tries) <= r.burst as real + (to - from) * r.rate
  {
    if tries == [] {
      MulPositive(to - from, r.rate);
    } else {
      var b1 := Attempt(r, b, tries[0].now, tries[0].n);
      var rest := tries[1..];
      FirstIsCapped(r, b, tries[0]);
      FirstTry(r, b, tries);
      RunIsCovered(r, b1, rest);
      FinalTime(r, b1, rest);
      CoveredByBurst(r, b1, Final(r, b1, rest), Granted(r, b, tries[0]), Total(r, b1, rest), from, to);
    }
  }

  // ---- Nothing is lost but what overflows ----

  /** What flows in at an attempt beyond the burst. */
  function Spilled(r: Rate, b: Bucket, now: real): real {
    var full := b.tokens + (now - b.lastTime) * r.rate;
    if full > r.burst as real then full - r.burst as real else 0.0
  }

  function TotalSpilled(r: Rate, b: Bucket, tries: seq<Try>): real {
    if tries == [] then 0.0
    else
      var init, last := tries[..|tries| - 1], tries[|tries| - 1];
      TotalSpilled(r, b, init) + Spilled(r, Final(r, b, init), last.now)
  }

  /** What was granted, what is left and what spilled over the burst are together
      what was there and what flowed in. */
  ghost predicate Balances(r: Rate, b: Bucket, end: Bucket, granted: real, spilled: real) {
    granted + end.tokens + spilled == b.tokens + (end.lastTime - b.lastTime) * r.rate
  }

  lemma BalancesAdd(r: Rate, b: Bucket, mid: Bucket, end: Bucket, g1: real, s1: real, g2: real, s2: real)
    requires Balances(r, b, mid, g1, s1) && Balances(r, mid, end, g2, s2)
    ensures Balances(r, b, end, g1 + g2, s1 + s2)
  {
    FlowAdds(b.lastTime, mid.lastTime, end.lastTime, r.rate);
  }

  lemma AttemptBalances(r: Rate, b: Bucket, t: Try)
    ensures Balances(r, b, Attempt(r, b, t.now, t.n), Granted(r, b, t), Spilled(r, b, t.now))
  {
  }

  /** So it is over any run: nothing is lost but what overflows. */
  lemma {:induction false} RunBalances(r: Rate, b: Bucket, tries: seq<Try>)
    ensures Balances(r, b, Final(r, b, tries), Total(r, b, tries), TotalSpilled(r, b, tries))
  {
    if tries != [] {
      var init, last := tries[..|tries| - 1], tries[|tries| - 1];
      var mid := Final(r, b, init);
      RunBalances(r, b, init);
      AttemptBalances(r, mid, last);
      BalancesAdd(r, b, mid, Attempt(r, mid, last.now, last.n), Total(r, b, init), TotalSpilled(r, b, init),
                  Granted(r, mid, last), Spilled(r, mid, last.now));
      FinalSnoc(r, b, tries);
    }
  }

  // ---- When waiting ends ----

  lemma MulSign(x: real, k: real)
    requires k > 0.0 && x * k > 0.0
    ensures x > 0.0
  {
  }

  /** After a refusal the loop sleeps for the deficit divided by the rate. With
      nobody else taking tokens meanwhile, the next attempt is granted exactly
      when the request is no larger than the burst. */
  lemma RetryGrantedIff(r: Rate, b: Bucket, now: real, n: nat)
    requires r.Limited() && InBounds(r, b) && b.lastTime <= now && !Grants(r, b, now, n)
    ensures var refused := Attempt(r, b, now, n);
            var wait := (n as real - refused.tokens) / r.rate;
            wait > 0.0 && (Grants(r, refused, now + wait, n) <==> n <= r.burst)
  {
    var refused := Attempt(r, b, now, n);
    var deficit := n as real - refused.tokens;
    var wait := deficit / r.rate;
    assert wait * r.rate == deficit > 0.0;
    MulSign(wait, r.rate);
  }

  const NANOSECOND: real := 0.000000001

  /** A duration is a whole number of nanoseconds: the sleep is cut down to one. */
  function Duration(seconds: real): real {
    (seconds * 1000000000.0).Floor as real / 1000000000.0
  }

  lemma DurationCutsDown(seconds: real)
    ensures Duration(seconds) <= seconds < Duration(seconds) + NANOSECOND
  {
  }

  lemma MulStrict(x: real, y: real, k: real)
    requires k > 0.0
    ensures x < y <==> x * k < y * k
  {
    FlowAdds(0.0, x, y, k);
    if x < y {
      assert (y - x) * k > 0.0;
    } else {
      MulPositive(x - y, k);
      FlowAdds(0.0, y, x, k);
    }
  }

  /** How a sleep of `slept`, cut down from `wait`, falls short of the deficit. */
  lemma ShortSleep(slept: real, wait: real, step: real, k: real, deficit: real) returns (inflow: real, cut: real)
    requires k > 0.0 && step > 0.0 && slept <= wait < slept + step && wait * k == deficit
    ensures inflow == slept * k && cut == step * k
    ensures inflow <= deficit < inflow + cut && 0.0 < cut
    ensures inflow == deficit <==> slept == wait
  {
    inflow, cut := slept * k, step * k;
    MulStrict(slept, wait, k);
    StepAbove(wait, slept, step, k);
  }

  lemma StepAbove(x: real, y: real, step: real, k: real)
    requires k > 0.0 && step > 0.0 && x < y + step
    ensures x * k < y * k + step * k && 0.0 < step * k
  {
    var end := y + step;
    MulStrict(x, end, k);
    assert end * k == y * k + step * k;
    MulStrict(0.0, step, k);
  }

  /** After sleeping exactly that duration the attempt is granted exactly when the
      request is no larger than the burst and nothing was cut off. A request within
      the burst then lacks less than a nanosecond's worth of tokens. */
  lemma RetryAfterDurationGrantedIff(r: Rate, b: Bucket, now: real, n: nat)
    requires r.Limited() && InBounds(r, b) && b.lastTime <= now && !Grants(r, b, now, n)
    ensures var refused := Attempt(r, b, now, n);
            var wait := (n as real - refused.tokens) / r.rate;
            && (Grants(r, refused, now + Duration(wait), n) <==> n <= r.burst && Duration(wait) == wait)
            && (n <= r.burst ==>
                  n as real - Refill(r, refused, now + Duration(wait)).tokens < NANOSECOND * r.rate)
  {
    var refused := Attempt(r, b, now, n);
    var wait := (n as real - refused.tokens) / r.rate;
    assert wait * r.rate == n as real - refused.tokens;
    DurationCutsDown(wait);
    AfterSleep(r, refused, wait, Duration(wait), n);
  }

  lemma AfterSleep(r: Rate, b: Bucket, wait: real, slept: real, n: nat)
    requires r.rate > 0.0 && slept <= wait < slept + NANOSECOND
    requires wait * r.rate == n as real - b.tokens
    ensures Grants(r, b, b.lastTime + slept, n) <==> n <= r.burst && slept == wait
    ensures n <= r.burst ==> n as real - Refill(r, b, b.lastTime + slept).tokens < NANOSECOND * r.rate
  {
    var deficit := n as real - b.tokens;
    var inflow, cut := ShortSleep(slept, wait, NANOSECOND, r.rate, deficit);
    RefillTokens(r, b, slept);
    Shortfall(b.tokens, n as real, r.burst as real, inflow, deficit, cut);
  }

  /** Tokens after an inflow that was to make up the whole deficit and is less than
      `cut` short of it. */
  lemma Shortfall(tokens: real, request: real, burst: real, inflow: real, deficit: real, cut: real)
    requires deficit == request - tokens && inflow <= deficit < inflow + cut && 0.0 < cut
    ensures var after := if tokens + inflow > burst then burst else tokens + inflow;
            && (after >= request <==> request <= burst && inflow == deficit)
            && (request <= burst ==> request - after < cut)
  {
  }

  lemma RefillTokens(r: Rate, b: Bucket, elapsed: real)
    ensures Refill(r, b, b.lastTime + elapsed).tokens ==
            if b.tokens + elapsed * r.rate > r.burst as real then r.burst as real else b.tokens + elapsed * r.rate
  {
    assert (b.lastTime + elapsed) - b.lastTime == elapsed;
  }

  // ---- The throttled writer ----

  /** How the underlying writer answers its calls in turn: `None` is a full write
      without error, `Some(k)` an error after `k` bytes. */
  type Sink = nat -> Option<nat>

  ghost function SumOf(xs: seq<nat>): nat {
    if xs == [] then 0 else SumOf(xs[..|xs| - 1]) + xs[|xs| - 1]
  }

  lemma PrefixGrows(p: ByteString, written: nat, end: nat, took: nat)
    requires written <= end <= |p| && took <= end - written
    ensures p[..written] + p[written..end][..took] == p[..written + took]
    ensures took == end - written ==> p[written..end][..took] == p[written..end]
  {
  }

  /** `Write`: `asked` are the amounts waited for, `delivered` what the underlying
      writer took. */
  method Write(burst: nat, p: ByteString, sink: Sink)
    returns (written: nat, err: bool, asked: seq<nat>, delivered: ByteString)
    ensures written == |delivered| <= |p| && delivered == p[..written]
    ensures !err ==> delivered == p && SumOf(asked) == |p|
    ensures err ==> asked != [] && sink(|asked| - 1).Some?
    ensures burst > 0 ==> forall i :: 0 <= i < |asked| ==> 0 < asked[i] <= burst
    ensures burst > 0 ==> forall i :: 0 <= i < |asked| - 1 ==> asked[i] == burst
    ensures burst == 0 ==> |asked| <= 1
    ensures |asked| > 0 ==> asked[|asked| - 1] == burst || SumOf(asked) == |p|
    ensures forall i :: 0 <= i < |asked| - 1 ==> sink(i).None?
    ensures !err ==> forall i :: 0 <= i < |asked| ==> sink(i).None?
  {
    written, err, asked, delivered := 0, false, [], [];
    var chunk := burst;
    if chunk <= 0 {
      chunk := |p|;
    }
    while written < |p|
      invariant 0 <= written <= |p| && delivered == p[..written]
      invariant SumOf(asked) == written
      invariant burst > 0 ==> forall i :: 0 <= i < |asked| ==> 0 < asked[i] <= burst
      invariant burst > 0 && written < |p| ==> forall i :: 0 <= i < |asked| ==> asked[i] == burst
      invariant burst > 0 ==> forall i :: 0 <= i < |asked| - 1 ==> asked[i] == burst
      invariant burst == 0 ==> |asked| <= if written == 0 then 0 else 1
      invariant burst == 0 && written > 0 ==> written == |p|
      invariant |asked| > 0 ==> asked[|asked| - 1] == burst || written == |p|
      invariant forall i :: 0 <= i < |asked| ==> sink(i).None?
    {
      var end := written + chunk;
      if end > |p| {
        end := |p|;
      }
      var piece := p[written..end];
      assert (asked + [end - written])[..|asked|] == asked;
      var answer := sink(|asked|);
      asked := asked + [end - written];
      match answer {
        case None =>
          PrefixGrows(p, written, end, |piece|);
          delivered := delivered + piece;
          written := end;
        case Some(k) =>
          var took := if k > |piece| then |piece| else k;
          PrefixGrows(p, written, end, took);
          delivered := delivered + piece[..took];
          written := written + took;
          err := true;
          return;
      }
    }
  }
}
