/** The lazy bucket refines a bucket with a running clock that leaks at every full second. */
module EagerTicker {
  import opened Numbers
  import opened AntiFlood

  /** `start` is the time of the first call (0 before it), `clock` the time reached so far. */
  datatype Ticker = Ticker(start: u64, clock: u64, points: u32, blockedUntil: u64)

  /** The points after every millisecond from `from + 1` to `until` has passed: one leak per full second
      since `start`. */
  function Tick(reduce: u32, start: nat, points: u32, from: nat, until: nat): u32
    decreases until
  {
    if until <= from then points else
      var p := Tick(reduce, start, points, from, until - 1);
      if (until - start) % 1000 == 0 then SaturatingSub(p, reduce) else p
  }

  /** A number kept below a bound. */
  function Capped(x: nat, bound: nat): (r: nat)
    ensures r <= bound
  {
    if x > bound then bound else x
  }

  /** The ticking bucket charges every call outside a block, whether it accepts it or not. */
  function EagerStep(config: Config, t: Ticker, cost: u32, now: u64): (Ticker, bool) {
    if cost == 0 then (t, false) else
      var points := if t.start == 0 then t.points else Tick(config.tickReduce, t.start, t.points, t.clock, now);
      var start := if t.start == 0 then now else t.start;
      if now < t.blockedUntil then (Ticker(start, now, points, t.blockedUntil), true)
      else if config.ipBlock != 0 && points + cost >= config.ipBlock then
        (Ticker(start, now, Capped(points + cost, U32_MAX), Capped(now + 1000 * config.banTime, U64_MAX)), true)
      else
        (Ticker(start, now, Capped(points + cost, U32_MAX), t.blockedUntil),
         config.commandBlock != 0 && points + cost >= config.commandBlock)
  }

  function EagerVerdicts(config: Config, t: Ticker, calls: seq<Call>): seq<bool>
    decreases |calls|
  {
    if calls == [] then [] else
      var (t', rejected) := EagerStep(config, t, calls[0].cost, calls[0].now);
      [rejected] + EagerVerdicts(config, t', calls[1..])
  }

  function EagerRun(config: Config, t: Ticker, calls: seq<Call>): Ticker
    decreases |calls|
  {
    if calls == [] then t else EagerRun(config, EagerStep(config, t, calls[0].cost, calls[0].now).0, calls[1..])
  }

  /** The lazy bucket's clock lags behind by less than a second and stays on the ticker's beat. */
  ghost predicate OnBeat(last: nat, start: nat, clock: nat) {
    start <= last <= clock < last + 1000 && (last - start) % 1000 == 0
  }

  ghost predicate Matches(config: Config, b: Bucket, t: Ticker) {
    && b.points == t.points && b.blockedUntil == t.blockedUntil
    && (b.last == 0 <==> t.start == 0) && t.start <= t.clock
    && (t.start != 0 && config.tickReduce > 0 ==> OnBeat(b.last, t.start, t.clock))
  }

  lemma SameBeat(x: nat, shift: nat)
    requires shift % 1000 == 0
    ensures (x + shift) % 1000 == x % 1000
  {
  }

  lemma SecondsStep(x: nat)
    requires x > 0
    ensures (x - 1) / 1000 == if x % 1000 == 0 then x / 1000 - 1 else x / 1000
  {
  }

  lemma LeakOnce(points: u32, seconds: nat, reduce: u32)
    ensures SaturatingSub(SaturatingSub(points, seconds * reduce), reduce)
         == SaturatingSub(points, (seconds + 1) * reduce)
  {
    assert (seconds + 1) * reduce == seconds * reduce + reduce;
  }

  lemma {:induction false} TickIsBulkLeak(reduce: u32, start: nat, points: u32, last: nat, from: nat, until: nat)
    requires start <= last <= from < last + 1000 && (last - start) % 1000 == 0 && from <= until
    ensures Tick(reduce, start, points, from, until) == SaturatingSub(points, (until - last) / 1000 * reduce)
    decreases until
  {
    if until > from {
      var passed := until - last;
      TickIsBulkLeak(reduce, start, points, last, from, until - 1);
      SameBeat(passed, last - start);
      SecondsStep(passed);
      LeakOnce(points, (passed - 1) / 1000, reduce);
    } else {
      assert (until - last) / 1000 == 0;
    }
  }

  lemma WholeSeconds(elapsed: nat, start: nat, last: nat)
    requires start <= last && (last - start) % 1000 == 0
    ensures (last + (elapsed - elapsed % 1000) - start) % 1000 == 0
    ensures elapsed < 1000 ==> elapsed / 1000 == 0
  {
    SameBeat(last - start, elapsed - elapsed % 1000);
  }

  lemma DecayMatches(config: Config, b: Bucket, t: Ticker, now: u64)
    requires config.tickReduce > 0 && Matches(config, b, t) && t.start != 0 && t.clock <= now
    ensures Decayed(config, b, now).points == Tick(config.tickReduce, t.start, t.points, t.clock, now)
    ensures OnBeat(Decayed(config, b, now).last, t.start, now)
  {
    TickIsBulkLeak(config.tickReduce, t.start, t.points, b.last, t.clock, now);
    DecayedTimes(config, b, now);
    WholeSeconds(now - b.last, t.start, b.last);
  }

  /** With a positive leak, decay subtracts the whole seconds passed and moves the clock by exactly those. */
  lemma DecayedTimes(config: Config, b: Bucket, now: u64)
    requires config.tickReduce > 0 && b.last <= now
    ensures Decayed(config, b, now).points == SaturatingSub(b.points, (now - b.last) / 1000 * config.tickReduce)
    ensures Decayed(config, b, now).last == b.last + ((now - b.last) - (now - b.last) % 1000)
  {
    var seconds := (now - b.last) / 1000;
    if seconds > 0 {
      AtLeast(1, seconds, config.tickReduce);
      assert seconds * config.tickReduce > 0;
    } else {
      assert seconds * config.tickReduce == 0;
    }
  }

  lemma {:induction false} NoLeak(start: nat, points: u32, from: nat, until: nat)
    ensures Tick(0, start, points, from, until) == points
    decreases until
  {
    if until > from { NoLeak(start, points, from, until - 1); }
  }

  lemma StepRefines(config: Config, b: Bucket, t: Ticker, cost: u32, now: u64)
    requires Matches(config, b, t) && t.clock <= now
    ensures Matches(config, Step(config, b, cost, now).0, EagerStep(config, t, cost, now).0)
    ensures Step(config, b, cost, now).1 == EagerStep(config, t, cost, now).1
    ensures EagerStep(config, t, cost, now).0.clock <= now
  {
    if cost != 0 && t.start != 0 {
      if config.tickReduce > 0 {
        DecayMatches(config, b, t, now);
      } else {
        NoLeak(t.start, t.points, t.clock, now);
      }
    }
  }

  /** For every run of calls with a clock that does not go back, the lazy bucket gives the verdicts and
      points of the ticking one. */
  lemma {:induction false} LazyRefinesEager(config: Config, b: Bucket, t: Ticker, calls: seq<Call>, from: nat)
    requires Matches(config, b, t) && t.clock <= from && NonDecreasing(from, calls)
    ensures Verdicts(config, b, calls) == EagerVerdicts(config, t, calls)
    ensures Run(config, b, calls).points == EagerRun(config, t, calls).points
    ensures Run(config, b, calls).blockedUntil == EagerRun(config, t, calls).blockedUntil
    decreases |calls|
  {
    if calls != [] {
      var cost, now := calls[0].cost, calls[0].now;
      StepRefines(config, b, t, cost, now);
      LazyRefinesEager(config, Step(config, b, cost, now).0, EagerStep(config, t, cost, now).0, calls[1..], now);
    }
  }

  /** In particular from an unused bucket. */
  lemma FreshBucketRefines(config: Config, calls: seq<Call>)
    requires NonDecreasing(0, calls)
    ensures Verdicts(config, EMPTY, calls) == EagerVerdicts(config, Ticker(0, 0, 0, 0), calls)
    ensures Run(config, EMPTY, calls).points == EagerRun(config, Ticker(0, 0, 0, 0), calls).points
  {
    LazyRefinesEager(config, EMPTY, Ticker(0, 0, 0, 0), calls, 0);
  }
}
