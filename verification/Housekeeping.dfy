/** Deleting temporary channels that nobody uses. */
module Housekeeping {
  import opened Collections
  import opened ChannelOrder
  import opened ChannelRows
  import opened FamilyCounts
  import opened Records

  const MUSIC_BOT := 4

  datatype World = World(
    channels: map<nat, seq<Channel>>,
    clients: map<nat, OnlineClient>,
    assignments: seq<ChannelGroupAssignment>,
    targets: seq<ChannelClientTarget>,
    messages: map<nat, seq<Message>>)

  datatype Cleanup = Cleanup(removedClient: Option<nat>, removedChannel: Option<Channel>)

  // --- One cleanup ---

  function IndexOfId(channels: seq<Channel>, id: nat): (r: Option<nat>)
    ensures r.Some? ==> r.value < |channels| && channels[r.value].id == id
    ensures r.None? <==> id !in Ids(channels)
  {
    if channels == [] then None
    else if channels[0].id == id then Some(0)
    else
      assert forall c :: c in channels <==> c == channels[0] || c in channels[1..];
      match IndexOfId(channels[1..], id)
      case Some(i) => Some(i + 1)
      case None => None
  }

  function Filter<T(!new)>(s: seq<T>, keep: T -> bool): (r: seq<T>)
    ensures forall a :: a in r <==> a in s && keep(a)
  {
    if s == [] then [] else
      assert forall a :: a in s <==> a == s[0] || a in s[1..];
      (if keep(s[0]) then [s[0]] else []) + Filter(s[1..], keep)
  }

  function AssignmentsWithout(s: seq<ChannelGroupAssignment>, channel: nat): seq<ChannelGroupAssignment> {
    Filter(s, (a: ChannelGroupAssignment) => a.channel != channel)
  }

  function TargetsWithout(s: seq<ChannelClientTarget>, channel: nat): seq<ChannelClientTarget> {
    Filter(s, (t: ChannelClientTarget) => t.channel != channel)
  }

  function MessagesWithout(s: seq<Message>, channel: nat): seq<Message> {
    Filter(s, (m: Message) => m.conversation != channel)
  }

  function WithoutChannel(w: World, server: nat, i: nat): World
    requires server in w.channels && i < |w.channels[server]|
  {
    var id := w.channels[server][i].id;
    World(
      w.channels[server := RemovedAndRelinked(w.channels[server], i)],
      w.clients,
      AssignmentsWithout(w.assignments, id),
      TargetsWithout(w.targets, id),
      if server in w.messages then w.messages[server := MessagesWithout(w.messages[server], id)] else w.messages)
  }

  predicate OnlyBots(clients: map<nat, OnlineClient>, ids: set<nat>) {
    forall k :: k in ids ==> k in clients && clients[k].exactType == MUSIC_BOT
  }

  /** The bots that leave when `channel` holds nothing but bots. */
  function Evicted(w: World, server: nat, channel: nat): set<nat> {
    var present := ClientsIn(w.clients, server, channel);
    if OnlyBots(w.clients, present) then present else {}
  }

  predicate IsTemporary(w: World, server: nat, channel: nat) {
    server in w.channels && FindById(w.channels[server], channel).Some?
      && FindById(w.channels[server], channel).value.kind == Temporary
  }

  predicate Deserted(w: World, server: nat, channel: nat) {
    && server in w.channels
    && ClientsIn(w.clients, server, channel) == {} && Children(w.channels[server], channel) == {}
  }

  function Cleaned(w: World, server: nat, channel: nat): World {
    if !IsTemporary(w, server, channel) then w else
      var w1 := w.(clients := w.clients - Evicted(w, server, channel));
      if Deserted(w1, server, channel)
      then WithoutChannel(w1, server, IndexOfId(w1.channels[server], channel).value)
      else w1
  }

  method RemoveAndRelink(channels: seq<Channel>, i: nat) returns (remaining: seq<Channel>)
    requires i < |channels|
    ensures remaining == RemovedAndRelinked(channels, i)
  {
    var rest := Without(channels, i);
    var siblings := OrderedSiblingIds(rest, channels[i].parent, None);
    var slice := new Channel[|rest|](k requires 0 <= k < |rest| => rest[k]);
    assert slice[..] == rest;
    RelinkSiblingOrders(slice, channels[i].parent, siblings);
    remaining := slice[..];
  }

  class Store {
    var channels: map<nat, seq<Channel>>
    var clients: map<nat, OnlineClient>
    var assignments: seq<ChannelGroupAssignment>
    var targets: seq<ChannelClientTarget>
    var messages: map<nat, seq<Message>>

    function Contents(): World
      reads this
    {
      World(channels, clients, assignments, targets, messages)
    }

    method RemoveChannel(server: nat, channel: nat) returns (removed: bool)
      modifies this
      ensures removed <==> server in old(channels) && channel in Ids(old(channels)[server])
      ensures !removed ==> Contents() == old(Contents())
      ensures removed ==>
        Contents() == WithoutChannel(old(Contents()), server, IndexOfId(old(channels)[server], channel).value)
    {
      if server !in channels {
        return false;
      }
      var index := IndexOfId(channels[server], channel);
      if index.None? {
        return false;
      }
      var remaining := RemoveAndRelink(channels[server], index.value);
      channels := channels[server := remaining];
      assignments := AssignmentsWithout(assignments, channel);
      targets := TargetsWithout(targets, channel);
      if server in messages {
        messages := messages[server := MessagesWithout(messages[server], channel)];
      }
      return true;
    }

    /** Reports something exactly when it removed something. */
    method CleanupTemporaryChannel(server: nat, channel: nat) returns (cleanup: Option<Cleanup>)
      modifies this
      ensures Contents() == Cleaned(old(Contents()), server, channel)
      ensures cleanup.None? ==> Contents() == old(Contents())
      ensures cleanup.Some? ==> cleanup.value.removedClient.Some? || cleanup.value.removedChannel.Some?
      ensures cleanup.Some? && cleanup.value.removedClient.Some? ==>
        cleanup.value.removedClient.value in old(clients) && cleanup.value.removedClient.value !in clients
      ensures (cleanup.Some? && cleanup.value.removedClient.Some?) <==> clients != old(clients)
      ensures (cleanup.Some? && cleanup.value.removedChannel.Some?) <==> channels != old(channels)
      ensures cleanup.Some? && cleanup.value.removedChannel.Some? ==>
        server in old(channels) && cleanup.value.removedChannel == FindById(old(channels)[server], channel)
    {
      if server !in channels {
        return None;
      }
      var snapshot := FindById(channels[server], channel);
      if snapshot.None? || snapshot.value.kind != Temporary {
        return None;
      }
      var removedClient := None;
      var present := ClientsIn(clients, server, channel);
      if present != {} && OnlyBots(clients, present) {
        ghost var before := clients;
        var bots := Ascending(present);
        for i := 0 to |bots|
          invariant unchanged(`channels) && unchanged(`assignments) && unchanged(`targets) && unchanged(`messages)
          invariant clients == before - Elems(bots[..i])
          invariant i == 0 ==> removedClient == None
          invariant i > 0 ==> removedClient == Some(bots[0])
        {
          assert bots[..i + 1] == bots[..i] + [bots[i]];
          clients := clients - {bots[i]};
          if removedClient.None? {
            removedClient := Some(bots[i]);
          }
        }
        assert bots[..|bots|] == bots;
        assert bots[0] in Elems(bots);
      }
      assert Contents() == old(Contents()).(clients := old(clients) - Evicted(old(Contents()), server, channel));
      var removedChannel := None;
      if ClientsIn(clients, server, channel) == {} && Children(channels[server], channel) == {} {
        var removed := RemoveChannel(server, channel);
        if removed {
          removedChannel := snapshot;
        }
      }
      if removedClient.None? && removedChannel.None? {
        return None;
      }
      return Some(Cleanup(removedClient, removedChannel));
    }

    /** The temporary-channel pass: the candidates are collected first, then cleaned one by one. */
    method RunTemporaryPass()
      modifies this
      ensures Contents() == Passed(old(Contents()))
    {
      var servers := Ascending(channels.Keys);
      assert forall server :: server in servers ==> server in Elems(servers);
      var candidates := CollectCandidates(channels, servers);
      for i := 0 to |candidates|
        invariant CleanedAll(Contents(), candidates[i..]) == Passed(old(Contents()))
      {
        CleanedAllStep(Contents(), candidates, i);
        var cleanup := CleanupTemporaryChannel(candidates[i].0, candidates[i].1);
      }
      assert candidates[|candidates|..] == [];
    }
  }

  // --- The pass ---

  function TemporaryIds(server: nat, channels: seq<Channel>): seq<(nat, nat)> {
    if channels == [] then [] else
      (if channels[0].kind == Temporary then [(server, channels[0].id)] else []) + TemporaryIds(server, channels[1..])
  }

  function CandidatesOf(channels: map<nat, seq<Channel>>, servers: seq<nat>): seq<(nat, nat)>
  {
    if servers == [] then [] else
      (if servers[0] in channels then TemporaryIds(servers[0], channels[servers[0]]) else [])
      + CandidatesOf(channels, servers[1..])
  }

  /** All temporary channels: servers ascending, channels in list order. */
  function Candidates(channels: map<nat, seq<Channel>>): seq<(nat, nat)> {
    CandidatesOf(channels, Ascending(channels.Keys))
  }

  function CleanedAll(w: World, candidates: seq<(nat, nat)>): World
    decreases |candidates|
  {
    if candidates == [] then w
    else CleanedAll(Cleaned(w, candidates[0].0, candidates[0].1), candidates[1..])
  }

  function Passed(w: World): World {
    CleanedAll(w, Candidates(w.channels))
  }

  lemma CleanedAllStep(w: World, candidates: seq<(nat, nat)>, i: nat)
    requires i < |candidates|
    ensures CleanedAll(w, candidates[i..]) ==
      CleanedAll(Cleaned(w, candidates[i].0, candidates[i].1), candidates[i + 1..])
  {
    assert candidates[i..][1..] == candidates[i + 1..];
  }

  method CollectCandidates(channels: map<nat, seq<Channel>>, servers: seq<nat>) returns (candidates: seq<(nat, nat)>)
    requires forall server :: server in servers ==> server in channels
    ensures candidates == CandidatesOf(channels, servers)
  {
    candidates := [];
    assert servers[0..] == servers;
    for i := 0 to |servers|
      invariant candidates + CandidatesOf(channels, servers[i..]) == CandidatesOf(channels, servers)
    {
      CandidatesStep(channels, servers, i);
      var found := TemporaryChannels(servers[i], channels[servers[i]]);
      ConcatAssociates(candidates, found, CandidatesOf(channels, servers[i + 1..]));
      candidates := candidates + found;
    }
    assert servers[|servers|..] == [];
  }

  lemma CandidatesStep(channels: map<nat, seq<Channel>>, servers: seq<nat>, i: nat)
    requires i < |servers| && servers[i] in channels
    ensures CandidatesOf(channels, servers[i..]) ==
      TemporaryIds(servers[i], channels[servers[i]]) + CandidatesOf(channels, servers[i + 1..])
  {
    assert servers[i..][1..] == servers[i + 1..];
  }

  method TemporaryChannels(server: nat, list: seq<Channel>) returns (found: seq<(nat, nat)>)
    ensures found == TemporaryIds(server, list)
  {
    found := [];
    for j := 0 to |list|
      invariant found + TemporaryIds(server, list[j..]) == TemporaryIds(server, list)
    {
      assert list[j..][1..] == list[j + 1..];
      if list[j].kind == Temporary {
        found := found + [(server, list[j].id)];
      }
    }
  }
}
