/** What housekeeping leaves of the records that name channels. */
module HousekeepingSurvivors {
  import opened ChannelOrder
  import opened Records
  import opened Housekeeping
  import opened HousekeepingSafety

  function ChannelOfAssignment(a: ChannelGroupAssignment): nat { a.channel }
  function ChannelOfTarget(t: ChannelClientTarget): nat { t.channel }
  function ConversationOf(m: Message): nat { m.conversation }

  /** The records that do not name a lost channel, in their order. */
  function Surviving<T>(s: seq<T>, channelOf: T -> nat, lost: set<nat>): seq<T> {
    if s == [] then []
    else (if channelOf(s[0]) in lost then [] else [s[0]]) + Surviving(s[1..], channelOf, lost)
  }

  ghost function IdsAt(w: World, server: nat): set<nat> {
    if server in w.channels then Ids(w.channels[server]) else {}
  }

  ghost function LostAt(before: World, after: World, server: nat): set<nat> {
    IdsAt(before, server) - IdsAt(after, server)
  }

  ghost function LostAnywhere(before: World, after: World): set<nat> {
    set server, id | server in before.channels && id in LostAt(before, after, server) :: id
  }

  ghost predicate MessagesKept(before: World, after: World, server: nat)
    requires server in before.messages && server in after.messages
  {
    after.messages[server] == Surviving(before.messages[server], ConversationOf, LostAt(before, after, server))
  }

  /** A message is lost exactly with its channel on its server, an assignment or target exactly with a channel
      of its id on some server, and the others stay as they are. */
  ghost predicate SurvivorsKept(before: World, after: World) {
    && after.messages.Keys == before.messages.Keys
    && (forall server :: server in before.messages ==> MessagesKept(before, after, server))
    && after.assignments == Surviving(before.assignments, ChannelOfAssignment, LostAnywhere(before, after))
    && after.targets == Surviving(before.targets, ChannelOfTarget, LostAnywhere(before, after))
  }

  // --- Surviving ---

  lemma {:induction false} NothingLost<T>(s: seq<T>, channelOf: T -> nat)
    ensures Surviving(s, channelOf, {}) == s
  {
    if s != [] { NothingLost(s[1..], channelOf); }
  }

  lemma {:induction false} SurvivingTwice<T>(s: seq<T>, channelOf: T -> nat, first: set<nat>, second: set<nat>)
    ensures Surviving(Surviving(s, channelOf, first), channelOf, second) == Surviving(s, channelOf, first + second)
  {
    if s != [] {
      var rest := Surviving(s[1..], channelOf, first);
      SurvivingTwice(s[1..], channelOf, first, second);
      assert ([s[0]] + rest)[1..] == rest && [] + rest == rest;
    }
  }

  lemma {:induction false} FilterIsSurviving<T(!new)>(s: seq<T>, keep: T -> bool, channelOf: T -> nat, id: nat)
    requires forall x :: keep(x) <==> channelOf(x) != id
    ensures Filter(s, keep) == Surviving(s, channelOf, {id})
  {
    if s != [] { FilterIsSurviving(s[1..], keep, channelOf, id); }
  }

  lemma {:induction false} SurvivingMembers<T(!new)>(s: seq<T>, channelOf: T -> nat, lost: set<nat>)
    ensures forall x :: x in Surviving(s, channelOf, lost) <==> x in s && channelOf(x) !in lost
  {
    if s != [] {
      SurvivingMembers(s[1..], channelOf, lost);
      assert forall x :: x in s <==> x == s[0] || x in s[1..];
    }
  }

  // --- One cleanup ---

  lemma UntouchedSurvive(before: World, after: World)
    requires after == before.(clients := after.clients)
    ensures SurvivorsKept(before, after)
  {
    assert forall server :: LostAt(before, after, server) == {};
    assert LostAnywhere(before, after) == {};
    NothingLost(before.assignments, ChannelOfAssignment);
    NothingLost(before.targets, ChannelOfTarget);
    forall server | server in before.messages ensures MessagesKept(before, after, server) {
      NothingLost(before.messages[server], ConversationOf);
    }
  }

  lemma RemovalLosesOne(w: World, server: nat, i: nat, w1: World)
    requires server in w.channels && UniqueIds(w.channels[server]) && i < |w.channels[server]|
    requires w1 == WithoutChannel(w, server, i)
    ensures forall s :: LostAt(w, w1, s) == if s == server then {w.channels[server][i].id} else {}
    ensures LostAnywhere(w, w1) == {w.channels[server][i].id}
  {
    var id := w.channels[server][i].id;
    RemovedShape(w.channels[server], i);
    assert w.channels[server][i] in w.channels[server];
    assert LostAt(w, w1, server) == {id};
    forall s | s != server ensures LostAt(w, w1, s) == {} {
    }
  }

  lemma RemovalSurvivors(w: World, server: nat, i: nat, w1: World)
    requires server in w.channels && UniqueIds(w.channels[server]) && i < |w.channels[server]|
    requires w1 == WithoutChannel(w, server, i)
    ensures SurvivorsKept(w, w1)
  {
    var id := w.channels[server][i].id;
    RemovalLosesOne(w, server, i, w1);
    FilterIsSurviving(w.assignments, (a: ChannelGroupAssignment) => a.channel != id, ChannelOfAssignment, id);
    FilterIsSurviving(w.targets, (t: ChannelClientTarget) => t.channel != id, ChannelOfTarget, id);
    forall s | s in w.messages ensures MessagesKept(w, w1, s) {
      if s == server {
        FilterIsSurviving(w.messages[s], (m: Message) => m.conversation != id, ConversationOf, id);
      } else {
        NothingLost(w.messages[s], ConversationOf);
      }
    }
  }

  ghost predicate Shrinks(before: World, after: World) {
    after.channels.Keys == before.channels.Keys && forall server :: IdsAt(after, server) <= IdsAt(before, server)
  }

  lemma LossShrinks(before: World, after: World)
    requires OnlyTemporaryLoss(before, after)
    ensures Shrinks(before, after)
  {
    forall server, id | id in IdsAt(after, server) ensures id in IdsAt(before, server) {
      var c :| c in after.channels[server] && c.id == id;
      assert (c.id, c.parent, c.kind) in Shape(after.channels[server]);
    }
  }

  lemma SurvivorsCompose(a: World, b: World, c: World)
    requires SurvivorsKept(a, b) && SurvivorsKept(b, c) && Shrinks(a, b) && Shrinks(b, c)
    ensures SurvivorsKept(a, c)
  {
    assert forall server :: LostAt(a, c, server) == LostAt(a, b, server) + LostAt(b, c, server);
    assert LostAnywhere(a, c) == LostAnywhere(a, b) + LostAnywhere(b, c);
    SurvivingTwice(a.assignments, ChannelOfAssignment, LostAnywhere(a, b), LostAnywhere(b, c));
    SurvivingTwice(a.targets, ChannelOfTarget, LostAnywhere(a, b), LostAnywhere(b, c));
    forall server | server in a.messages ensures MessagesKept(a, c, server) {
      assert MessagesKept(a, b, server) && MessagesKept(b, c, server);
      SurvivingTwice(a.messages[server], ConversationOf, LostAt(a, b, server), LostAt(b, c, server));
    }
  }

  lemma ClientsDoNotMatter(w: World, w1: World, after: World)
    requires w1 == w.(clients := w1.clients) && SurvivorsKept(w1, after)
    ensures SurvivorsKept(w, after)
  {
    assert forall s :: LostAt(w1, after, s) == LostAt(w, after, s);
    assert LostAnywhere(w1, after) == LostAnywhere(w, after);
    assert forall s :: s in w.messages && MessagesKept(w1, after, s) ==> MessagesKept(w, after, s);
  }

  /** One cleanup loses nothing but what names the channel it removes. */
  lemma CleanupSurvivors(w: World, server: nat, channel: nat)
    requires Valid(w)
    ensures SurvivorsKept(w, Cleaned(w, server, channel))
  {
    var cleaned := Cleaned(w, server, channel);
    if IsTemporary(w, server, channel) {
      var w1 := w.(clients := w.clients - Evicted(w, server, channel));
      UntouchedSurvive(w, w1);
      if Deserted(w1, server, channel) {
        RemovalSurvivors(w1, server, IndexOfId(w.channels[server], channel).value, cleaned);
        ClientsDoNotMatter(w, w1, cleaned);
      }
    } else {
      UntouchedSurvive(w, cleaned);
    }
  }

  // --- Passes ---

  lemma {:induction false} CleanAllSurvivors(w: World, candidates: seq<(nat, nat)>)
    requires Valid(w)
    ensures SurvivorsKept(w, CleanedAll(w, candidates))
    decreases |candidates|
  {
    if candidates == [] {
      UntouchedSurvive(w, w);
    } else {
      var w1, rest := Cleaned(w, candidates[0].0, candidates[0].1), candidates[1..];
      CleanupStep(w, candidates[0].0, candidates[0].1);
      CleanupSurvivors(w, candidates[0].0, candidates[0].1);
      CleanAllStep(w1, rest);
      CleanAllSurvivors(w1, rest);
      LossShrinks(w, w1);
      LossShrinks(w1, CleanedAll(w1, rest));
      SurvivorsCompose(w, w1, CleanedAll(w1, rest));
    }
  }

  lemma PassSurvivors(w: World)
    requires Valid(w)
    ensures SurvivorsKept(w, Passed(w))
  {
    CleanAllSurvivors(w, Candidates(w.channels));
  }

  lemma {:induction false} HousekeptSurvivors(w: World)
    requires Valid(w)
    ensures SurvivorsKept(w, Housekept(w))
    decreases Size(w)
  {
    PassIsSafe(w);
    PassSurvivors(w);
    if Passed(w) != w {
      HousekeptSurvivors(Passed(w));
      LossShrinks(w, Passed(w));
      LossShrinks(Passed(w), Housekept(Passed(w)));
      SurvivorsCompose(w, Passed(w), Housekept(Passed(w)));
    }
  }

  // --- Over the records' fields ---

  ghost predicate TemporaryGone(before: World, after: World, server: nat, id: nat) {
    && server in before.channels && id !in IdsAt(after, server)
    && exists c :: c in before.channels[server] && c.id == id && c.kind == Temporary
  }

  /** A channel that is lost was temporary. */
  lemma LostIsTemporary(before: World, after: World, server: nat, id: nat)
    requires OnlyTemporaryLoss(before, after) && id in LostAt(before, after, server)
    ensures TemporaryGone(before, after, server, id)
  {
    var c :| c in before.channels[server] && c.id == id;
    assert (c.id, c.parent, c.kind) in Shape(before.channels[server]);
  }

  lemma LostIffGone(before: World, after: World, server: nat, id: nat)
    requires OnlyTemporaryLoss(before, after)
    ensures id in LostAt(before, after, server) <==> TemporaryGone(before, after, server, id)
  {
    if id in LostAt(before, after, server) { LostIsTemporary(before, after, server, id); }
  }

  ghost predicate GoneSomewhere(before: World, after: World, id: nat) {
    exists server :: TemporaryGone(before, after, server, id)
  }

  lemma LostAnywhereIffGone(before: World, after: World, id: nat)
    requires OnlyTemporaryLoss(before, after)
    ensures id in LostAnywhere(before, after) <==> GoneSomewhere(before, after, id)
  {
    if id in LostAnywhere(before, after) {
      var server :| server in before.channels && id in LostAt(before, after, server);
      LostIffGone(before, after, server, id);
    }
    if server :| TemporaryGone(before, after, server, id) { LostIffGone(before, after, server, id); }
  }

  function MessagesAt(w: World, server: nat): seq<Message> {
    if server in w.messages then w.messages[server] else []
  }

  lemma MessageFate(before: World, after: World, server: nat, m: Message)
    requires OnlyTemporaryLoss(before, after) && SurvivorsKept(before, after)
    requires m in MessagesAt(before, server)
    ensures m !in MessagesAt(after, server) <==> TemporaryGone(before, after, server, m.conversation)
  {
    assert MessagesKept(before, after, server);
    SurvivingMembers(before.messages[server], ConversationOf, LostAt(before, after, server));
    LostIffGone(before, after, server, m.conversation);
  }

  lemma AssignmentFate(before: World, after: World, a: ChannelGroupAssignment)
    requires OnlyTemporaryLoss(before, after) && SurvivorsKept(before, after) && a in before.assignments
    ensures a !in after.assignments <==> GoneSomewhere(before, after, a.channel)
  {
    SurvivingMembers(before.assignments, ChannelOfAssignment, LostAnywhere(before, after));
    LostAnywhereIffGone(before, after, a.channel);
  }

  lemma TargetFate(before: World, after: World, t: ChannelClientTarget)
    requires OnlyTemporaryLoss(before, after) && SurvivorsKept(before, after) && t in before.targets
    ensures t !in after.targets <==> GoneSomewhere(before, after, t.channel)
  {
    SurvivingMembers(before.targets, ChannelOfTarget, LostAnywhere(before, after));
    LostAnywhereIffGone(before, after, t.channel);
  }

  /** Housekeeping keeps every message, assignment and target, unless it names a temporary channel that
      housekeeping removes. */
  lemma OnlyTheirsAreLost(w: World)
    requires Valid(w)
    ensures var r := Housekept(w);
      && (forall s, m :: m in MessagesAt(w, s) ==>
            (m !in MessagesAt(r, s) <==> TemporaryGone(w, r, s, m.conversation)))
      && (forall a :: a in w.assignments ==> (a !in r.assignments <==> GoneSomewhere(w, r, a.channel)))
      && (forall t :: t in w.targets ==> (t !in r.targets <==> GoneSomewhere(w, r, t.channel)))
  {
    var r := Housekept(w);
    HousekeptSurvivors(w);
    forall s, m | m in MessagesAt(w, s)
      ensures m !in MessagesAt(r, s) <==> TemporaryGone(w, r, s, m.conversation)
    {
      MessageFate(w, r, s, m);
    }
    forall a | a in w.assignments ensures a !in r.assignments <==> GoneSomewhere(w, r, a.channel) {
      AssignmentFate(w, r, a);
    }
    forall t | t in w.targets ensures t !in r.targets <==> GoneSomewhere(w, r, t.channel) {
      TargetFate(w, r, t);
    }
  }
}
