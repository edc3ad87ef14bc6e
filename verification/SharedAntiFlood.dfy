/** Anti-flood across front ends: each web session has its own bucket, and all commands that come from one
    address to one server, over the web or over a query connection, share one more. */
module SharedAntiFlood {
  import opened Collections
  import opened Numbers
  import opened AntiFlood

  type Key = (nat, string)

  /** What the runtime knows about servers and addresses. `trim` removes surrounding white space. */
  datatype Rules = Rules(configs: map<nat, Config>, trim: string -> string, isLoopback: string -> bool)
  {
    predicate IsBlank(ip: string) {
      trim(ip) == ""
    }

    /** Query connections without an address count as local ones. */
    function QueryAddress(ip: string): string {
      if trim(ip) == "" then "127.0.0.1" else trim(ip)
    }
  }

  /** A command at one of the two gates. A web command that is passed on to the common dispatcher meets the
      second gate as well, as a query command of its own. `exempt` says that the caller holds the permission to
      ignore anti-flood. */
  datatype Command =
    | Web(name: string, server: Option<nat>, now: u64, exempt: bool, session: nat, ip: Option<string>)
    | Query(name: string, server: Option<nat>, now: u64, exempt: bool, connection: string)

  function CostOf(c: Command): u32 {
    CommandCost(c.name)
  }

  datatype Buckets = Buckets(sessions: map<nat, Bucket>, shared: map<Key, Bucket>)

  function LevelOf<K(==)>(buckets: map<K, Bucket>, k: K): Bucket {
    if k in buckets then buckets[k] else EMPTY
  }

  function SharedStep(rules: Rules, config: Config, shared: map<Key, Bucket>, key: Key, cost: u32, now: u64,
                      skipLoopback: bool): (map<Key, Bucket>, bool)
  {
    if rules.IsBlank(key.1) || (skipLoopback && rules.isLoopback(key.1)) then (shared, false) else
      var (b, rejected) := Step(config, LevelOf(shared, key), cost, now);
      (shared[key := b], rejected)
  }

  predicate IsChecked(rules: Rules, c: Command) {
    c.server.Some? && !c.exempt && c.server.value in rules.configs && (c.Web? ==> CostOf(c) != 0)
  }

  /** The buckets after a command and whether it is refused. */
  function Enforced(rules: Rules, w: Buckets, c: Command): (Buckets, bool) {
    if !IsChecked(rules, c) then (w, false) else
      var server, config := c.server.value, rules.configs[c.server.value];
      if c.Query? then
        var (shared, rejected) :=
          SharedStep(rules, config, w.shared, (server, rules.QueryAddress(c.connection)), CostOf(c), c.now, false);
        (w.(shared := shared), rejected)
      else
        var (own, flooding) := Step(config, LevelOf(w.sessions, c.session), CostOf(c), c.now);
        var w' := w.(sessions := w.sessions[c.session := own]);
        if flooding then (w', true)
        else if c.ip.None? then (w', false)
        else
          var (shared, rejected) := SharedStep(rules, config, w.shared, (server, c.ip.value), CostOf(c), c.now, true);
          (w'.(shared := shared), rejected)
  }

  class Runtime {
    const rules: Rules
    var addresses: map<Key, AntiFloodState>

    constructor (rules: Rules)
      ensures this.rules == rules && Valid() && Shared() == map[]
    {
      this.rules := rules;
      addresses := map[];
    }

    ghost predicate Valid()
      reads this
    {
      forall k, l :: k in addresses && l in addresses && k != l ==> addresses[k] != addresses[l]
    }

    ghost function Shared(): map<Key, Bucket>
      reads this, addresses.Values
    {
      map k | k in addresses :: addresses[k].Level()
    }

    method AddAddress(key: Key)
      requires Valid()
      modifies this
      ensures Valid() && fresh(addresses.Values - old(addresses.Values))
      ensures key in addresses && Shared() == old(Shared())[key := LevelOf(old(Shared()), key)]
    {
      if key in addresses {
        assert Shared() == old(Shared())[key := LevelOf(old(Shared()), key)];
        return;
      }
      var state := new AntiFloodState();
      assert state !in addresses.Values;
      addresses := addresses[key := state];
      assert addresses.Values <= old(addresses.Values) + {state} by {
        forall k | k in addresses ensures addresses[k] in old(addresses.Values) + {state} {
          if k != key { assert old(addresses)[k] in old(addresses.Values); }
        }
      }
      assert forall k :: k in old(addresses) ==> addresses[k].Level() == old(Shared())[k];
    }

    method SharedIpRejected(config: Config, server: nat, ip: string, cost: u32, now: u64, skipLoopback: bool)
      returns (rejected: bool)
      requires Valid()
      modifies this, addresses.Values
      ensures Valid() && fresh(addresses.Values - old(addresses.Values))
      ensures (Shared(), rejected)
           == SharedStep(rules, config, old(Shared()), (server, ip), cost, now, skipLoopback)
    {
      if rules.IsBlank(ip) {
        return false;
      }
      if skipLoopback && rules.isLoopback(ip) {
        return false;
      }
      var key := (server, ip);
      AddAddress(key);
      assert addresses[key].Level() == Shared()[key];
      rejected := addresses[key].CommandRejected(config, cost, now);
      assert Shared() == old(Shared())[key := addresses[key].Level()];
    }

    /** The session's own bucket is asked first; the shared one only if that accepts. */
    method EnforceWebAntiflood(session: AntiFloodState, c: Command) returns (refused: bool)
      requires Valid() && session !in addresses.Values && c.Web?
      modifies this, addresses.Values, session
      ensures Valid() && fresh(addresses.Values - old(addresses.Values))
      ensures var before := Buckets(map[c.session := old(session.Level())], old(Shared()));
              var after := Buckets(map[c.session := session.Level()], Shared());
        (after, refused) == Enforced(rules, before, c)
    {
      if c.server.None? || CostOf(c) == 0 || c.exempt || c.server.value !in rules.configs {
        return false;
      }
      var config := rules.configs[c.server.value];
      var flooding := session.CommandRejected(config, CostOf(c), c.now);
      ghost var own := map[c.session := old(session.Level())];
      assert own[c.session := session.Level()] == map[c.session := session.Level()];
      assert Shared() == old(Shared());
      if flooding {
        return true;
      }
      if c.ip.Some? {
        refused := SharedIpRejected(config, c.server.value, c.ip.value, CostOf(c), c.now, true);
      } else {
        refused := false;
      }
    }

    /** The gate in front of the common dispatcher: local addresses are limited here. */
    method EnforceQueryAntiflood(c: Command) returns (refused: bool)
      requires Valid() && c.Query?
      modifies this, addresses.Values
      ensures Valid() && fresh(addresses.Values - old(addresses.Values))
      ensures forall sessions ::
        (Buckets(sessions, Shared()), refused) == Enforced(rules, Buckets(sessions, old(Shared())), c)
    {
      if c.server.None? || c.server.value !in rules.configs || c.exempt {
        return false;
      }
      var address := rules.QueryAddress(c.connection);
      refused := SharedIpRejected(rules.configs[c.server.value], c.server.value, address, CostOf(c), c.now, false);
    }
  }

  // --- Any interleaving of sessions and connections ---

  ghost predicate TimesRise(from: nat, commands: seq<Command>)
    decreases |commands|
  {
    commands != [] ==> from <= commands[0].now && TimesRise(commands[0].now, commands[1..])
  }

  function LastTime(from: nat, commands: seq<Command>): nat
    decreases |commands|
  {
    if commands == [] then from else LastTime(commands[0].now, commands[1..])
  }

  /** The command is charged to the bucket of this server and address. */
  predicate Concerns(rules: Rules, key: Key, c: Command) {
    && c.server == Some(key.0) && key.0 in rules.configs && !c.exempt && rules.trim(key.1) != ""
    && match c
       case Web(_, _, _, _, _, ip) => CostOf(c) > 0 && ip == Some(key.1) && !rules.isLoopback(key.1)
       case Query(_, _, _, _, connection) =>
         if rules.trim(connection) != "" then key.1 == rules.trim(connection) else key.1 == "127.0.0.1"
  }

  /** Cost of the commands accepted from one address, whatever their sessions and front ends. */
  function AcceptedFrom(rules: Rules, w: Buckets, key: Key, commands: seq<Command>): nat
    decreases |commands|
  {
    if commands == [] then 0 else
      var (w', refused) := Enforced(rules, w, commands[0]);
      (if Concerns(rules, key, commands[0]) && !refused then CostOf(commands[0]) else 0)
      + AcceptedFrom(rules, w', key, commands[1..])
  }

  /** Without a server that limits commands, or with the exemption, a command passes and leaves all buckets as they
      are; so does a web command that costs nothing. */
  lemma UncheckedPass(rules: Rules, w: Buckets, c: Command)
    requires c.exempt || c.server.None? || c.server.value !in rules.configs || (c.Web? && CostOf(c) == 0)
    ensures Enforced(rules, w, c) == (w, false)
  {
  }

  /** The session's own bucket refuses the command, so that it does not reach the shared one. */
  predicate StoppedEarly(rules: Rules, w: Buckets, c: Command)
    requires c.server.Some? && c.server.value in rules.configs
  {
    c.Web? && Step(rules.configs[c.server.value], LevelOf(w.sessions, c.session), CostOf(c), c.now).1
  }

  /** The calls that reach the address's shared bucket. */
  function Reaching(rules: Rules, w: Buckets, key: Key, commands: seq<Command>): seq<Call>
    decreases |commands|
  {
    if commands == [] then [] else
      var c, w' := commands[0], Enforced(rules, w, commands[0]).0;
      (if Concerns(rules, key, c) && !StoppedEarly(rules, w, c) then [Call(CostOf(c), c.now)] else [])
      + Reaching(rules, w', key, commands[1..])
  }

  /** One command moves the shared bucket exactly when it reaches it. */
  lemma SharedBucketMoves(rules: Rules, w: Buckets, key: Key, c: Command)
    requires key.0 in rules.configs
    ensures var (w', refused) := Enforced(rules, w, c);
      if Concerns(rules, key, c) && !StoppedEarly(rules, w, c)
      then (LevelOf(w'.shared, key), refused) == Step(rules.configs[key.0], LevelOf(w.shared, key), CostOf(c), c.now)
      else LevelOf(w'.shared, key) == LevelOf(w.shared, key) && (Concerns(rules, key, c) ==> refused)
  {
  }

  /** The shared bucket of an address carries exactly what is accepted from that address, over every run in
      which web sessions and query connections interleave. */
  lemma {:induction false} ReachingCarriesCost(rules: Rules, w: Buckets, key: Key, commands: seq<Command>, from: nat)
    requires key.0 in rules.configs && TimesRise(from, commands)
    ensures var reaching := Reaching(rules, w, key, commands);
      && AcceptedFrom(rules, w, key, commands)
           == AcceptedCost(rules.configs[key.0], LevelOf(w.shared, key), reaching)
      && NonDecreasing(from, reaching) && EndOf(from, reaching) <= LastTime(from, commands)
    decreases |commands|
  {
    if commands != [] {
      var c, later := commands[0], commands[1..];
      var w' := Enforced(rules, w, c).0;
      var rest := Reaching(rules, w', key, later);
      SharedBucketMoves(rules, w, key, c);
      ReachingCarriesCost(rules, w', key, later, c.now);
      StartEarlier(from, c.now, rest, later);
      if Concerns(rules, key, c) && !StoppedEarly(rules, w, c) {
        assert ([Call(CostOf(c), c.now)] + rest)[1..] == rest;
      } else {
        assert [] + rest == rest;
      }
    }
  }

  lemma StartEarlier(from: nat, later: nat, rest: seq<Call>, commands: seq<Command>)
    requires from <= later && NonDecreasing(later, rest) && EndOf(later, rest) <= LastTime(later, commands)
    requires TimesRise(later, commands)
    ensures NonDecreasing(from, rest) && EndOf(from, rest) <= LastTime(later, commands)
  {
    LastTimeAtLeast(later, commands);
  }

  lemma {:induction false} LastTimeAtLeast(from: nat, commands: seq<Command>)
    requires TimesRise(from, commands)
    ensures from <= LastTime(from, commands)
    decreases |commands|
  {
    if commands != [] { LastTimeAtLeast(commands[0].now, commands[1..]); }
  }

  /** However the web sessions and query connections behind one address interleave with each other and with
      other addresses, the cost accepted from it within a window of time stays below the command threshold plus
      the leak of the seconds begun. */
  lemma SharedRateBound(rules: Rules, w: Buckets, key: Key, commands: seq<Command>, from: nat)
    requires key.0 in rules.configs && rules.configs[key.0].commandBlock > 0
    requires TimesRise(from, commands)
    ensures AcceptedFrom(rules, w, key, commands) < rules.configs[key.0].commandBlock
      + rules.configs[key.0].tickReduce * SecondsBegun(LastTime(from, commands) - from)
  {
    ReachingCarriesCost(rules, w, key, commands, from);
    WindowBound(rules.configs[key.0], LevelOf(w.shared, key), Reaching(rules, w, key, commands), from,
                LastTime(from, commands));
  }

  /** The rate bound over any window that holds the calls. */
  lemma WindowBound(config: Config, b: Bucket, calls: seq<Call>, from: nat, to: nat)
    requires config.commandBlock > 0
    requires NonDecreasing(from, calls) && EndOf(from, calls) <= to
    ensures AcceptedCost(config, b, calls) < config.commandBlock + config.tickReduce * SecondsBegun(to - from)
  {
    var window := SecondsBegun(to - from);
    AtLeast(0, window, config.tickReduce);
    if calls != [] {
      RateBound(config, b, calls);
      AtLeast(SecondsBegun(EndOf(0, calls) - calls[0].now), window, config.tickReduce);
    }
  }

  // --- One session ---

  predicate OfSession(rules: Rules, session: nat, c: Command) {
    && c.Web? && c.session == session && CostOf(c) > 0
    && c.server.Some? && c.server.value in rules.configs && !c.exempt
  }

  /** A checked web command moves its session's own bucket by one step and is refused whenever that step refuses
      it; no other command moves that bucket. */
  lemma SessionBucketMoves(rules: Rules, w: Buckets, session: nat, c: Command)
    ensures var (w', refused) := Enforced(rules, w, c);
      if OfSession(rules, session, c) then
        var (own, flooding) := Step(rules.configs[c.server.value], LevelOf(w.sessions, session), CostOf(c), c.now);
        session in w'.sessions && w'.sessions[session] == own && (flooding ==> refused)
      else
        && (session in w'.sessions <==> session in w.sessions)
        && LevelOf(w'.sessions, session) == LevelOf(w.sessions, session)
  {
  }

  /** Cost of the commands accepted from one session. */
  function AcceptedBy(rules: Rules, w: Buckets, session: nat, commands: seq<Command>): nat
    decreases |commands|
  {
    if commands == [] then 0 else
      var (w', refused) := Enforced(rules, w, commands[0]);
      (if OfSession(rules, session, commands[0]) && !refused then CostOf(commands[0]) else 0)
      + AcceptedBy(rules, w', session, commands[1..])
  }

  /** Every server at which the session's commands are checked has a command threshold of at most `limit` and a
      leak of at most `reduce`. */
  predicate WithinLimits(rules: Rules, session: nat, commands: seq<Command>, limit: nat, reduce: nat) {
    forall c :: c in commands ==> IsWithin(rules, session, c, limit, reduce)
  }

  predicate IsWithin(rules: Rules, session: nat, c: Command, limit: nat, reduce: nat) {
    OfSession(rules, session, c) ==>
      0 < rules.configs[c.server.value].commandBlock <= limit && rules.configs[c.server.value].tickReduce <= reduce
  }

  lemma LimitsStep(rules: Rules, session: nat, commands: seq<Command>, limit: nat, reduce: nat)
    requires WithinLimits(rules, session, commands, limit, reduce) && commands != []
    ensures IsWithin(rules, session, commands[0], limit, reduce)
    ensures WithinLimits(rules, session, commands[1..], limit, reduce)
  {
    assert commands[0] in commands && forall c :: c in commands[1..] ==> c in commands;
  }

  /** The accepted cost of a run, its first command apart. */
  lemma AcceptedByStep(rules: Rules, w: Buckets, session: nat, commands: seq<Command>)
    requires commands != []
    ensures var (w', refused) := Enforced(rules, w, commands[0]);
      AcceptedBy(rules, w, session, commands) == AcceptedBy(rules, w', session, commands[1..])
        + if OfSession(rules, session, commands[0]) && !refused then CostOf(commands[0]) else 0
  {
  }

  /** One step keeps the accepted cost covered and below the limit, also when a later gate refuses the command. */
  lemma StepCovered(config: Config, limit: nat, reduce: nat, b: Bucket, from: nat, before: nat, cost: u32, now: u64,
                    accepted: nat, ticks: nat, refused: bool) returns (ticks': nat)
    requires Covered(reduce, b, from, before, accepted, ticks) && from <= before <= now && cost > 0
    requires 0 < config.commandBlock <= limit && config.tickReduce <= reduce
    requires Step(config, b, cost, now).1 ==> refused
    requires accepted < limit + reduce * SecondsBegun(now - from)
    ensures var accepted' := accepted + if refused then 0 else cost;
      && Covered(reduce, Step(config, b, cost, now).0, from, now, accepted', ticks')
      && accepted' < limit + reduce * SecondsBegun(now - from)
  {
    ticks' := DecayCovered(config, reduce, b, from, before, now, accepted, ticks);
    ChargeCovered(config, reduce, Decayed(config, Started(b, now), now), cost, from, now, accepted, ticks');
  }

  lemma {:induction false} SessionBoundFrom(rules: Rules, w: Buckets, session: nat, commands: seq<Command>,
                                            limit: nat, reduce: nat, from: nat, now: nat, accepted: nat, ticks: nat)
    requires WithinLimits(rules, session, commands, limit, reduce) && from <= now && TimesRise(now, commands)
    requires Covered(reduce, LevelOf(w.sessions, session), from, now, accepted, ticks)
    requires accepted < limit + reduce * SecondsBegun(now - from)
    ensures accepted + AcceptedBy(rules, w, session, commands)
          < limit + reduce * SecondsBegun(LastTime(now, commands) - from)
    decreases |commands|
  {
    if commands != [] {
      var c, rest := commands[0], commands[1..];
      var (w', refused) := Enforced(rules, w, c);
      LimitsStep(rules, session, commands, limit, reduce);
      SessionBucketMoves(rules, w, session, c);
      AcceptedByStep(rules, w, session, commands);
      AtLeast(SecondsBegun(now - from), SecondsBegun(c.now - from), reduce);
      if OfSession(rules, session, c) {
        var config, own := rules.configs[c.server.value], LevelOf(w.sessions, session);
        var ticks' := StepCovered(config, limit, reduce, own, from, now, CostOf(c), c.now, accepted, ticks, refused);
        var accepted' := accepted + if refused then 0 else CostOf(c);
        SessionBoundFrom(rules, w', session, rest, limit, reduce, from, c.now, accepted', ticks');
      } else {
        SessionBoundFrom(rules, w', session, rest, limit, reduce, from, c.now, accepted, ticks);
      }
    }
  }

  /** Whatever the other sessions and connections do, the cost accepted from one session within a window of time
      stays below the largest command threshold it meets plus the largest leak of the seconds begun. */
  lemma {:induction false} SessionRateBound(rules: Rules, w: Buckets, session: nat, commands: seq<Command>,
                                            limit: nat, reduce: nat, from: nat)
    requires WithinLimits(rules, session, commands, limit, reduce) && limit > 0 && TimesRise(from, commands)
    ensures AcceptedBy(rules, w, session, commands) < limit + reduce * SecondsBegun(LastTime(from, commands) - from)
    decreases |commands|
  {
    AtLeast(0, SecondsBegun(LastTime(from, commands) - from), reduce);
    if commands != [] {
      var c, rest := commands[0], commands[1..];
      var (w', refused) := Enforced(rules, w, c);
      var end := LastTime(c.now, rest);
      LimitsStep(rules, session, commands, limit, reduce);
      SessionBucketMoves(rules, w, session, c);
      AcceptedByStep(rules, w, session, commands);
      AtLeast(SecondsBegun(end - c.now), SecondsBegun(end - from), reduce);
      if OfSession(rules, session, c) {
        var config, own := rules.configs[c.server.value], LevelOf(w.sessions, session);
        FirstCovered(config, reduce, own, c.now);
        ChargeCovered(config, reduce, Decayed(config, Started(own, c.now), c.now), CostOf(c), c.now, c.now, 0, 0);
        SessionBoundFrom(rules, w', session, rest, limit, reduce, c.now, c.now, if refused then 0 else CostOf(c), 0);
      } else {
        SessionRateBound(rules, w', session, rest, limit, reduce, c.now);
      }
    }
  }
}
