/** The anti-flood bucket: points leak once per second, but only when the next command arrives. */
module AntiFlood {
  import opened Numbers

  datatype Config = Config(tickReduce: u32, commandBlock: u32, ipBlock: u32, banTime: u32)

  datatype Bucket = Bucket(last: u64, points: u32, blockedUntil: u64)

  const EMPTY := Bucket(0, 0, 0)

  function CommandCost(name: string): u32 {
    if name in {"musicbotlist", "mbotlist", "musicbotplayerinfo", "musicbotplayeraction", "mbotplayer",
                "musicbotqueuelist", "playlistlist", "playlistinfo", "playlistsonglist",
                "serverrequestconnectioninfo", "whoami"} then 0
    else if name in {"sendtextmessage", "serveredit", "clientmove", "channelcreate", "channeldelete",
                     "channeledit", "channelmove"} then 2
    else 1
  }

  // --- One call ---

  /** A clock of 0 means the bucket has never been used. */
  function Started(b: Bucket, now: u64): Bucket {
    if b.last == 0 then b.(last := now) else b
  }

  function Decayed(config: Config, b: Bucket, now: u64): Bucket {
    var elapsed := SaturatingSub(now, b.last);
    if config.tickReduce == 0 then b.(last := now) else
      var reduced := MinOf(elapsed / 1000 * config.tickReduce, U64_MAX);
      if reduced == 0 then b
      else b.(points := SaturatingSub(b.points, MinOf(reduced, U32_MAX)),
              last := MinOf(b.last + (elapsed - elapsed % 1000), U64_MAX))
  }

  function Charged(config: Config, b: Bucket, cost: u32, now: u64): (Bucket, bool) {
    if b.blockedUntil > now then (b, true) else
      var b' := b.(points := MinOf(b.points + cost, U32_MAX));
      if config.ipBlock > 0 && b'.points >= config.ipBlock then
        (b'.(blockedUntil := MinOf(now + MinOf(config.banTime * 1000, U64_MAX), U64_MAX)), true)
      else
        (b', config.commandBlock > 0 && b'.points >= config.commandBlock)
  }

  /** The bucket after a call and whether the call is rejected. */
  function Step(config: Config, b: Bucket, cost: u32, now: u64): (Bucket, bool) {
    if cost == 0 then (b, false) else Charged(config, Decayed(config, Started(b, now), now), cost, now)
  }

  class AntiFloodState {
    var lastUpdateMillis: u64
    var points: u32
    var blockedUntilMillis: u64

    constructor ()
      ensures Level() == EMPTY
    {
      lastUpdateMillis, points, blockedUntilMillis := 0, 0, 0;
    }

    function Level(): Bucket
      reads this
    {
      Bucket(lastUpdateMillis, points, blockedUntilMillis)
    }

    /** The first half of a call: the leak of the whole seconds that have passed. */
    method Leak(config: Config, now: u64)
      modifies this
      ensures Level() == Decayed(config, old(Level()), now)
    {
      var elapsed := SaturatingSub(now, lastUpdateMillis);
      if config.tickReduce > 0 {
        var reduced := MinOf(elapsed / 1000 * config.tickReduce, U64_MAX);
        if reduced > 0 {
          points := SaturatingSub(points, MinOf(reduced, U32_MAX));
          var processed := elapsed - elapsed % 1000;
          lastUpdateMillis := MinOf(lastUpdateMillis + processed, U64_MAX);
        }
      } else {
        lastUpdateMillis := now;
      }
    }

    method CommandRejected(config: Config, cost: u32, now: u64) returns (rejected: bool)
      modifies this
      ensures (Level(), rejected) == Step(config, old(Level()), cost, now)
    {
      if cost == 0 {
        return false;
      }
      if lastUpdateMillis == 0 {
        lastUpdateMillis := now;
      }
      Leak(config, now);
      if blockedUntilMillis > now {
        return true;
      }
      points := MinOf(points + cost, U32_MAX);
      if config.ipBlock > 0 && points >= config.ipBlock {
        blockedUntilMillis := MinOf(now + MinOf(config.banTime * 1000, U64_MAX), U64_MAX);
        return true;
      }
      if config.commandBlock > 0 && points >= config.commandBlock {
        return true;
      }
      return false;
    }
  }

  // --- Runs ---

  datatype Call = Call(cost: u32, now: u64)

  ghost predicate NonDecreasing(from: nat, calls: seq<Call>)
    decreases |calls|
  {
    calls != [] ==> from <= calls[0].now && NonDecreasing(calls[0].now, calls[1..])
  }

  function Run(config: Config, b: Bucket, calls: seq<Call>): Bucket
    decreases |calls|
  {
    if calls == [] then b else Run(config, Step(config, b, calls[0].cost, calls[0].now).0, calls[1..])
  }

  function Verdicts(config: Config, b: Bucket, calls: seq<Call>): seq<bool>
    decreases |calls|
  {
    if calls == [] then [] else
      var (b', rejected) := Step(config, b, calls[0].cost, calls[0].now);
      [rejected] + Verdicts(config, b', calls[1..])
  }

  /** Total cost of the accepted calls. */
  function AcceptedCost(config: Config, b: Bucket, calls: seq<Call>): nat
    decreases |calls|
  {
    if calls == [] then 0 else
      var (b', rejected) := Step(config, b, calls[0].cost, calls[0].now);
      (if rejected then 0 else calls[0].cost) + AcceptedCost(config, b', calls[1..])
  }

  function EndOf(from: nat, calls: seq<Call>): nat
    decreases |calls|
  {
    if calls == [] then from else EndOf(calls[0].now, calls[1..])
  }

  // --- Rate bound ---

  function SecondsBegun(millis: int): nat {
    if millis <= 0 then 0 else (millis + 999) / 1000
  }

  /** Since `from`, at most `ticks` seconds of a leak of `reduce` have been applied, and the accepted cost
      `accepted` is covered by the current points and that leak. */
  ghost predicate Covered(reduce: nat, b: Bucket, from: nat, now: nat, accepted: nat, ticks: nat) {
    && accepted <= b.points + reduce * ticks
    && 1000 * ticks + from < b.last + 1000
    && (ticks > 0 ==> b.last <= now)
  }

  lemma Distribute(r: nat, a: nat, b: nat)
    ensures r * (a + b) == r * a + b * r
  {
  }

  lemma AtLeast(a: nat, b: nat, r: nat)
    requires a <= b
    ensures r * a <= r * b
  {
  }

  lemma DecayCovered(config: Config, reduce: nat, b: Bucket, from: nat, before: nat, now: u64, accepted: nat,
                     ticks: nat)
    returns (ticks': nat)
    requires Covered(reduce, b, from, before, accepted, ticks) && from <= before <= now
    requires config.tickReduce <= reduce
    ensures Covered(reduce, Decayed(config, Started(b, now), now), from, now, accepted, ticks')
  {
    var b' := Started(b, now);
    var elapsed := SaturatingSub(now, b'.last);
    if config.tickReduce > 0 && elapsed / 1000 * config.tickReduce > 0 {
      ticks' := ticks + elapsed / 1000;
      Distribute(reduce, ticks, elapsed / 1000);
      AtLeast(config.tickReduce, reduce, elapsed / 1000);
    } else {
      ticks' := ticks;
    }
  }

  /** From the first call on, whatever the bucket held before. */
  lemma FirstCovered(config: Config, reduce: nat, b: Bucket, now: u64)
    ensures Covered(reduce, Decayed(config, Started(b, now), now), now, now, 0, 0)
  {
    var b' := Started(b, now);
    var elapsed := SaturatingSub(now, b'.last);
    if config.tickReduce > 0 && elapsed / 1000 * config.tickReduce == 0 {
      if elapsed / 1000 > 0 { AtLeast(1, elapsed / 1000, config.tickReduce); }
    }
  }

  lemma ChargeCovered(config: Config, reduce: nat, b: Bucket, cost: u32, from: nat, now: u64, accepted: nat,
                      ticks: nat)
    requires Covered(reduce, b, from, now, accepted, ticks) && from <= now
    requires config.commandBlock > 0
    ensures var (b', rejected) := Charged(config, b, cost, now);
      var accepted' := accepted + if rejected then 0 else cost;
      && Covered(reduce, b', from, now, accepted', ticks)
      && (!rejected ==> accepted' < config.commandBlock + reduce * SecondsBegun(now - from))
  {
    if ticks > 0 {
      assert ticks <= SecondsBegun(now - from);
    }
    AtLeast(ticks, SecondsBegun(now - from), reduce);
  }

  lemma {:induction false} BoundFrom(config: Config, b: Bucket, calls: seq<Call>, from: nat, now: nat,
                                     accepted: nat, ticks: nat)
    requires config.commandBlock > 0
    requires Covered(config.tickReduce, b, from, now, accepted, ticks) && from <= now && NonDecreasing(now, calls)
    requires accepted < config.commandBlock + config.tickReduce * SecondsBegun(now - from)
    ensures accepted + AcceptedCost(config, b, calls)
          < config.commandBlock + config.tickReduce * SecondsBegun(EndOf(now, calls) - from)
    decreases |calls|
  {
    if calls != [] {
      var cost, next := calls[0].cost, calls[0].now;
      AtLeast(SecondsBegun(now - from), SecondsBegun(next - from), config.tickReduce);
      var (b', rejected) := Step(config, b, cost, next);
      if cost == 0 {
        BoundFrom(config, b', calls[1..], from, next, accepted, ticks);
      } else {
        var r, decayed := config.tickReduce, Decayed(config, Started(b, next), next);
        var ticks' := DecayCovered(config, r, b, from, now, next, accepted, ticks);
        ChargeCovered(config, r, decayed, cost, from, next, accepted, ticks');
        BoundFrom(config, b', calls[1..], from, next, accepted + if rejected then 0 else cost, ticks');
      }
    }
  }

  /** Over any window of calls, whatever the bucket held before and however the rejected calls fall, the
      accepted cost stays below the command threshold plus the leak of the seconds begun in the window. */
  lemma {:induction false} RateBound(config: Config, b: Bucket, calls: seq<Call>)
    requires config.commandBlock > 0
    requires calls != [] && NonDecreasing(calls[0].now, calls)
    ensures AcceptedCost(config, b, calls)
          < config.commandBlock + config.tickReduce * SecondsBegun(EndOf(0, calls) - calls[0].now)
    decreases |calls|
  {
    var cost, now := calls[0].cost, calls[0].now;
    var (b', rejected) := Step(config, b, cost, now);
    var end := EndOf(0, calls);
    if cost == 0 {
      AtLeast(0, SecondsBegun(end - now), config.tickReduce);
      if calls[1..] != [] {
        var later := calls[1].now;
        RateBound(config, b', calls[1..]);
        AtLeast(SecondsBegun(end - later), SecondsBegun(end - now), config.tickReduce);
      }
    } else {
      FirstCovered(config, config.tickReduce, b, now);
      ChargeCovered(config, config.tickReduce, Decayed(config, Started(b, now), now), cost, now, now, 0, 0);
      BoundFrom(config, b', calls[1..], now, now, if rejected then 0 else cost, 0);
    }
  }

  /** The first call starts a bucket exactly when its clock is not 0. */
  lemma StartsUnlessZero(config: Config, cost: u32, now: u64)
    requires cost > 0
    ensures Step(config, EMPTY, cost, now).0.last > 0 <==> now > 0
  {
  }

  /** At clock 0 a bucket does not start: of calls at 0 and 1000 nothing has leaked, of calls at 1 and 1001 one
      second has. */
  lemma ZeroClockExample(config: Config)
    requires config.tickReduce == 1 && config.ipBlock == 0 && config.commandBlock == 0
    ensures Run(config, EMPTY, [Call(2, 0), Call(2, 1000)]).points == 4
    ensures Run(config, EMPTY, [Call(2, 1), Call(2, 1001)]).points == 3
  {
    var early, late := [Call(2, 0), Call(2, 1000)], [Call(2, 1), Call(2, 1001)];
    assert early[1..] == [Call(2, 1000)] && early[1..][1..] == [];
    assert late[1..] == [Call(2, 1001)] && late[1..][1..] == [];
    assert Step(config, EMPTY, 2, 0).0 == Bucket(0, 2, 0);
    assert Step(config, EMPTY, 2, 1).0 == Bucket(1, 2, 0);
  }

  // --- Verdicts and blocks ---

  predicate Reaches(threshold: u32, points: nat) {
    threshold > 0 && points >= threshold
  }

  /** A call outside a block is rejected exactly when the unbounded sum of points and cost reaches a
      threshold, and it starts a block exactly when that is the address threshold: saturation does not show. */
  lemma VerdictIsExact(config: Config, b: Bucket, cost: u32, now: u64)
    requires cost > 0 && b.blockedUntil <= now
    ensures var points := Decayed(config, Started(b, now), now).points + cost;
      var (b', rejected) := Step(config, b, cost, now);
      && (rejected <==> Reaches(config.ipBlock, points) || Reaches(config.commandBlock, points))
      && (b'.blockedUntil > now <==>
            Reaches(config.ipBlock, points) && config.banTime > 0 && now < U64_MAX)
      && (b'.blockedUntil > now ==>
            b'.blockedUntil == U64_MAX || b'.blockedUntil == now + 1000 * config.banTime)
  {
  }

  /** While a block lasts, every call that costs something is rejected, and the block neither grows nor
      shrinks. */
  lemma {:induction false} BlockHolds(config: Config, b: Bucket, calls: seq<Call>)
    requires forall c :: c in calls ==> c.now < b.blockedUntil
    ensures |Verdicts(config, b, calls)| == |calls|
    ensures forall i :: 0 <= i < |calls| ==> (Verdicts(config, b, calls)[i] <==> calls[i].cost > 0)
    ensures Run(config, b, calls).blockedUntil == b.blockedUntil && Run(config, b, calls).points <= b.points
    decreases |calls|
  {
    if calls != [] {
      assert calls[0] in calls && forall c :: c in calls[1..] ==> c in calls;
      BlockHolds(config, Step(config, b, calls[0].cost, calls[0].now).0, calls[1..]);
    }
  }

  function TotalCost(calls: seq<Call>): nat {
    if calls == [] then 0 else calls[0].cost + TotalCost(calls[1..])
  }

  /** Nobody is refused who stays below the thresholds: outside a block, calls whose whole cost fits are all
      accepted, at whatever times. */
  lemma {:induction false} ModerateUseAccepted(config: Config, b: Bucket, calls: seq<Call>)
    requires forall c :: c in calls ==> b.blockedUntil <= c.now
    requires config.ipBlock > 0 ==> b.points + TotalCost(calls) < config.ipBlock
    requires config.commandBlock > 0 ==> b.points + TotalCost(calls) < config.commandBlock
    ensures AcceptedCost(config, b, calls) == TotalCost(calls)
    decreases |calls|
  {
    if calls != [] {
      assert calls[0] in calls && forall c :: c in calls[1..] ==> c in calls;
      ModerateUseAccepted(config, Step(config, b, calls[0].cost, calls[0].now).0, calls[1..]);
    }
  }

  /** An accepted call never meets the saturation of the point counter. */
  lemma AcceptedIsExact(config: Config, b: Bucket, cost: u32, now: u64)
    requires config.commandBlock > 0 && cost > 0 && !Step(config, b, cost, now).1
    ensures Step(config, b, cost, now).0.points == Decayed(config, Started(b, now), now).points + cost
    ensures Step(config, b, cost, now).0.points < config.commandBlock
  {
  }
}
