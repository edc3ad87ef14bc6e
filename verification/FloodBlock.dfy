/** What calls leave in the bucket, and when a flood starts a block. */
module FloodBlock {
  import opened Numbers
  import opened AntiFlood

  /** Outside a block every call with a cost adds it to what has not leaked, accepted or not; during a block no
      call adds anything. */
  lemma ChargeIsKept(config: Config, b: Bucket, cost: u32, now: u64)
    requires cost > 0
    ensures var kept, b' := Decayed(config, Started(b, now), now), Step(config, b, cost, now).0;
      && b'.last == kept.last
      && b'.points == if b.blockedUntil > now then kept.points else MinOf(kept.points + cost, U32_MAX)
  {
  }

  lemma {:induction false} BlockNeverShrinks(config: Config, b: Bucket, calls: seq<Call>)
    ensures Run(config, b, calls).blockedUntil >= b.blockedUntil
    decreases |calls|
  {
    if calls != [] {
      BlockNeverShrinks(config, Step(config, b, calls[0].cost, calls[0].now).0, calls[1..]);
    }
  }

  /** Where the leak of a bucket counts from. */
  function StartOf(b: Bucket, from: nat): nat {
    if b.last == 0 then from else b.last
  }

  /** Decay takes no more than the leak of the whole seconds by which it moves the clock. */
  lemma DecayTakesSeconds(config: Config, b: Bucket, from: nat, now: u64) returns (seconds: nat)
    requires StartOf(b, from) <= now && from <= now
    ensures var kept := Decayed(config, Started(b, now), now);
      && kept.points + config.tickReduce * seconds >= b.points
      && kept.last <= now && 1000 * seconds + StartOf(b, from) <= StartOf(kept, now)
  {
    var b' := Started(b, now);
    var elapsed := SaturatingSub(now, b'.last);
    seconds := if config.tickReduce == 0 || elapsed / 1000 * config.tickReduce == 0 then 0 else elapsed / 1000;
    if seconds > 0 {
      assert elapsed / 1000 * config.tickReduce == config.tickReduce * seconds;
    }
  }

  /** Seconds left after `seconds` of them have been counted. */
  lemma LaterSeconds(seconds: nat, start: nat, later: nat, end: nat, reduce: nat)
    requires 1000 * seconds + start <= later
    ensures reduce * seconds + reduce * Seconds(end - later) <= reduce * Seconds(end - start) || end < later
  {
    if end >= later {
      Distribute(reduce, seconds, Seconds(end - later));
      AtLeast(seconds + Seconds(end - later), Seconds(end - start), reduce);
    }
  }

  function Seconds(millis: int): nat {
    if millis <= 0 then 0 else millis / 1000
  }

  /** Commands that outrun the leak by the address threshold start a block before the run is over, whether the
      command threshold refuses them or not. */
  lemma {:induction false} FloodStartsBlock(config: Config, b: Bucket, calls: seq<Call>, from: nat)
    requires config.ipBlock > 0 && config.banTime > 0 && TotalCost(calls) > 0
    requires NonDecreasing(from, calls) && StartOf(b, from) <= from && b.blockedUntil <= from
    requires EndOf(from, calls) < U64_MAX
    requires b.points + TotalCost(calls)
          >= config.ipBlock + config.tickReduce * Seconds(EndOf(from, calls) - StartOf(b, from))
    ensures Run(config, b, calls).blockedUntil > from
    decreases |calls|
  {
    var cost, now, rest := calls[0].cost, calls[0].now, calls[1..];
    var end, r := EndOf(now, rest), config.tickReduce;
    var (b', rejected) := Step(config, b, cost, now);
    EndAtLeast(now, rest);
    if cost == 0 {
      AtLeast(Seconds(end - StartOf(b, now)), Seconds(end - StartOf(b, from)), r);
      FloodStartsBlock(config, b', rest, now);
    } else {
      var seconds := DecayTakesSeconds(config, b, from, now);
      ChargeIsKept(config, b, cost, now);
      BlockNeverShrinks(config, b', rest);
      if b'.points < config.ipBlock {
        LaterSeconds(seconds, StartOf(b, from), StartOf(b', now), end, r);
        AtLeast(0, Seconds(end - StartOf(b', now)), r);
        FloodStartsBlock(config, b', rest, now);
      }
    }
  }

  lemma {:induction false} EndAtLeast(from: nat, calls: seq<Call>)
    requires NonDecreasing(from, calls)
    ensures from <= EndOf(from, calls)
    decreases |calls|
  {
    if calls != [] { EndAtLeast(calls[0].now, calls[1..]); }
  }

  /** A second decay at the same time changes nothing. */
  lemma DecayOnce(config: Config, b: Bucket, now: u64)
    requires b.last <= now
    ensures var kept := Decayed(config, Started(b, now), now);
      && Decayed(config, Started(kept, now), now) == kept
      && kept.last <= now && kept.blockedUntil == b.blockedUntil
      && config.tickReduce * Seconds(now - StartOf(kept, now)) == 0
  {
    var kept := Decayed(config, Started(b, now), now);
    var seconds := (now - Started(b, now).last) / 1000;
    if config.tickReduce > 0 && seconds > 0 {
      AtLeast(1, seconds, config.tickReduce);
      assert seconds * config.tickReduce == config.tickReduce * seconds;
      assert now - kept.last < 1000;
    }
  }

  /** In particular, commands of one instant start a block when their cost and what has not leaked reach the
      address threshold. */
  lemma {:induction false} BurstStartsBlock(config: Config, b: Bucket, calls: seq<Call>, now: u64)
    requires config.ipBlock > 0 && config.banTime > 0 && TotalCost(calls) > 0
    requires (forall c :: c in calls ==> c.now == now) && now < U64_MAX
    requires b.last <= now && b.blockedUntil <= now
    requires Decayed(config, Started(b, now), now).points + TotalCost(calls) >= config.ipBlock
    ensures Run(config, b, calls).blockedUntil > now
    decreases |calls|
  {
    assert calls[0] in calls && forall c :: c in calls[1..] ==> c in calls;
    if calls[0].cost == 0 {
      BurstStartsBlock(config, b, calls[1..], now);
    } else {
      var kept := Decayed(config, Started(b, now), now);
      DecayOnce(config, b, now);
      assert Step(config, b, calls[0].cost, now) == Step(config, kept, calls[0].cost, now);
      SameInstant(calls, now);
      FloodStartsBlock(config, kept, calls, now);
    }
  }

  lemma {:induction false} SameInstant(calls: seq<Call>, now: nat)
    requires forall c :: c in calls ==> c.now == now
    ensures NonDecreasing(now, calls) && EndOf(now, calls) == now
    decreases |calls|
  {
    if calls != [] {
      assert calls[0] in calls && forall c :: c in calls[1..] ==> c in calls;
      SameInstant(calls[1..], now);
    }
  }
}
