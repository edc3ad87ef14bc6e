/** Cleaning up the stored assignments and permission targets after loading. */
module Normalization {
  import opened Collections
  import opened Records

  type Pair = (nat, nat)

  // --- Sorted keys ---

  predicate PairBefore(p: Pair, q: Pair) {
    p.0 < q.0 || (p.0 == q.0 && p.1 < q.1)
  }

  function LeastPair(s: set<Pair>): (p: Pair)
    requires s != {}
    ensures p in s && forall q :: q in s ==> q == p || PairBefore(p, q)
  {
    var firsts := set q | q in s :: q.0;
    assert forall q :: q in s ==> q.0 in firsts;
    var a := Min(firsts);
    var seconds := set q | q in s && q.0 == a :: q.1;
    assert forall q :: q in s && q.0 == a ==> q.1 in seconds;
    var b := Min(seconds);
    assert forall q :: q in s ==> q.0 == a || a < q.0;
    (a, b)
  }

  /** The keys of a `BTreeMap` in iteration order. */
  function SortedPairs(s: set<Pair>): (r: seq<Pair>)
    ensures Elems(r) == s && PairsAscend(r)
  {
    if s == {} then [] else
      var p := LeastPair(s);
      var rest := SortedPairs(s - {p});
      assert forall i :: 0 <= i < |rest| ==> rest[i] in Elems(rest);
      assert Elems([p] + rest) == {p} + Elems(rest);
      [p] + rest
  }

  predicate PairsAscend(pairs: seq<Pair>) {
    forall i, j :: 0 <= i < j < |pairs| ==> PairBefore(pairs[i], pairs[j])
  }

  // --- Permissions of a client ---

  function EmptyTarget(client: nat): ClientTarget {
    ClientTarget(0, client, "", "", map[])
  }

  /** The first non-empty name is kept; the permissions of later targets win. */
  function Merged(entry: ClientTarget, t: ClientTarget): ClientTarget {
    ClientTarget(entry.server, entry.client,
                 if entry.uniqueId == "" then t.uniqueId else entry.uniqueId,
                 if entry.nickname == "" then t.nickname else entry.nickname,
                 entry.permissions + t.permissions)
  }

  function ClientEntry(entries: map<nat, ClientTarget>, client: nat): ClientTarget {
    if client in entries then entries[client] else EmptyTarget(client)
  }

  function ClientEntries(entries: map<nat, ClientTarget>, targets: seq<ClientTarget>): map<nat, ClientTarget>
    decreases |targets|
  {
    if targets == [] then entries else
      var t := targets[0];
      ClientEntries(if t.permissions == map[] then entries
                    else entries[t.client := Merged(ClientEntry(entries, t.client), t)], targets[1..])
  }

  function Values<K(==), V>(m: map<K, V>, keys: seq<K>): (r: seq<V>)
    requires forall k :: k in keys ==> k in m
    ensures |r| == |keys| && forall i :: 0 <= i < |r| ==> r[i] == m[keys[i]]
  {
    seq(|keys|, i requires 0 <= i < |keys| => m[keys[i]])
  }

  function KeysOf(s: set<nat>): (r: seq<nat>)
    ensures IsAscending(r) && NoDup(r) && forall k :: k in r <==> k in s
  {
    assert forall k :: k in Ascending(s) <==> k in Elems(Ascending(s));
    Ascending(s)
  }

  function NormalizedClients(targets: seq<ClientTarget>): seq<ClientTarget> {
    var entries := ClientEntries(map[], targets);
    Values(entries, KeysOf(entries.Keys))
  }

  // --- Channel group assignments and channel client permissions ---

  /** The channel groups, channels and clients that exist. */
  datatype Known = Known(groups: set<nat>, channels: set<nat>, clients: set<nat>)

  predicate IsKept(known: Known, a: ChannelGroupAssignment) {
    a.group in known.groups && a.channel in known.channels && a.client in known.clients
  }

  function WithAssignment(known: Known, entries: map<Pair, nat>, a: ChannelGroupAssignment): map<Pair, nat> {
    if IsKept(known, a) then entries[(a.channel, a.client) := a.group] else entries
  }

  function GroupEntries(known: Known, entries: map<Pair, nat>, assignments: seq<ChannelGroupAssignment>): map<Pair, nat>
    decreases |assignments|
  {
    if assignments == [] then entries
    else GroupEntries(known, WithAssignment(known, entries, assignments[0]), assignments[1..])
  }

  function AssignmentOf(p: Pair, group: nat): ChannelGroupAssignment {
    ChannelGroupAssignment(p.0, p.1, group)
  }

  function AssignmentsOf(m: map<Pair, nat>, keys: seq<Pair>): (r: seq<ChannelGroupAssignment>)
    requires forall k :: k in keys ==> k in m
    ensures |r| == |keys| && forall i :: 0 <= i < |r| ==> r[i] == AssignmentOf(keys[i], m[keys[i]])
  {
    seq(|keys|, i requires 0 <= i < |keys| => AssignmentOf(keys[i], m[keys[i]]))
  }

  function PairsOf(s: set<Pair>): (r: seq<Pair>)
    ensures PairsAscend(r) && NoDup(r) && forall k :: k in r <==> k in s
  {
    assert forall k :: k in SortedPairs(s) <==> k in Elems(SortedPairs(s));
    SortedPairs(s)
  }

  function NormalizedAssignments(known: Known, assignments: seq<ChannelGroupAssignment>): seq<ChannelGroupAssignment> {
    var entries := GroupEntries(known, map[], assignments);
    AssignmentsOf(entries, PairsOf(entries.Keys))
  }

  predicate IsKeptTarget(known: Known, t: ChannelClientTarget) {
    t.channel in known.channels && t.client in known.clients && t.permissions != map[]
  }

  function PermissionsOf(entries: map<Pair, Permissions>, key: Pair): Permissions {
    if key in entries then entries[key] else map[]
  }

  function WithTarget(known: Known, entries: map<Pair, Permissions>, t: ChannelClientTarget): map<Pair, Permissions> {
    var key := (t.channel, t.client);
    if IsKeptTarget(known, t) then entries[key := PermissionsOf(entries, key) + t.permissions] else entries
  }

  function TargetEntries(known: Known, entries: map<Pair, Permissions>, targets: seq<ChannelClientTarget>)
    : map<Pair, Permissions>
    decreases |targets|
  {
    if targets == [] then entries
    else TargetEntries(known, WithTarget(known, entries, targets[0]), targets[1..])
  }

  function TargetOf(p: Pair, permissions: Permissions): ChannelClientTarget {
    ChannelClientTarget(p.0, p.1, permissions)
  }

  function TargetsOf(m: map<Pair, Permissions>, keys: seq<Pair>): (r: seq<ChannelClientTarget>)
    requires forall k :: k in keys ==> k in m
    ensures |r| == |keys| && forall i :: 0 <= i < |r| ==> r[i] == TargetOf(keys[i], m[keys[i]])
  {
    seq(|keys|, i requires 0 <= i < |keys| => TargetOf(keys[i], m[keys[i]]))
  }

  function NormalizedTargets(known: Known, targets: seq<ChannelClientTarget>): seq<ChannelClientTarget> {
    var entries := TargetEntries(known, map[], targets);
    TargetsOf(entries, PairsOf(entries.Keys))
  }

  // --- The store ---

  function ClientIds(targets: seq<ClientTarget>): set<nat> {
    set t | t in targets :: t.client
  }

  datatype Loaded = Loaded(
    groups: set<nat>,
    channels: set<nat>,
    otherClients: set<nat>,
    clientTargets: seq<ClientTarget>,
    assignments: seq<ChannelGroupAssignment>,
    targets: seq<ChannelClientTarget>)

  /** A client is known if anything in the store, permission targets included, mentions it. */
  function KnownIn(w: Loaded): Known {
    Known(w.groups, w.channels, w.otherClients + ClientIds(w.clientTargets))
  }

  /** The three passes in the order they run on load. */
  function Normalize(w: Loaded): Loaded {
    var w1 := w.(clientTargets := NormalizedClients(w.clientTargets));
    var w2 := w1.(assignments := NormalizedAssignments(KnownIn(w1), w1.assignments));
    w2.(targets := NormalizedTargets(KnownIn(w2), w2.targets))
  }

  class Store {
    const groups: set<nat>
    const channels: set<nat>
    const otherClients: set<nat>
    var clientTargets: seq<ClientTarget>
    var assignments: seq<ChannelGroupAssignment>
    var targets: seq<ChannelClientTarget>

    constructor (w: Loaded)
      ensures Contents() == w
    {
      groups, channels, otherClients := w.groups, w.channels, w.otherClients;
      clientTargets, assignments, targets := w.clientTargets, w.assignments, w.targets;
    }

    function Contents(): Loaded
      reads this
    {
      Loaded(groups, channels, otherClients, clientTargets, assignments, targets)
    }

    method NormalizeClientPermissions()
      modifies this`clientTargets
      ensures clientTargets == NormalizedClients(old(clientTargets))
    {
      var taken := clientTargets;
      var entries: map<nat, ClientTarget> := map[];
      assert taken[0..] == taken;
      for i := 0 to |taken|
        invariant ClientEntries(entries, taken[i..]) == ClientEntries(map[], taken)
      {
        var t := taken[i];
        assert taken[i..][1..] == taken[i + 1..];
        if t.permissions == map[] {
          continue;
        }
        var entry := if t.client in entries then entries[t.client] else EmptyTarget(t.client);
        if entry.uniqueId == "" && t.uniqueId != "" {
          entry := entry.(uniqueId := t.uniqueId);
        }
        if entry.nickname == "" && t.nickname != "" {
          entry := entry.(nickname := t.nickname);
        }
        entry := entry.(permissions := entry.permissions + t.permissions);
        entries := entries[t.client := entry];
      }
      assert taken[|taken|..] == [];
      clientTargets := Values(entries, KeysOf(entries.Keys));
    }

    method NormalizeChannelGroupAssignments()
      modifies this`assignments
      ensures assignments == NormalizedAssignments(KnownIn(Contents()), old(assignments))
    {
      var known := KnownIn(Contents());
      var taken := assignments;
      var entries: map<Pair, nat> := map[];
      assert taken[0..] == taken;
      for i := 0 to |taken|
        invariant GroupEntries(known, entries, taken[i..]) == GroupEntries(known, map[], taken)
      {
        var a := taken[i];
        assert taken[i..][1..] == taken[i + 1..];
        if a.group !in known.groups || a.channel !in known.channels || a.client !in known.clients {
          continue;
        }
        entries := entries[(a.channel, a.client) := a.group];
      }
      assert taken[|taken|..] == [];
      assignments := AssignmentsOf(entries, PairsOf(entries.Keys));
    }

    method NormalizeChannelClientPermissions()
      modifies this`targets
      ensures targets == NormalizedTargets(KnownIn(Contents()), old(targets))
    {
      var known := KnownIn(Contents());
      var taken := targets;
      var entries: map<Pair, Permissions> := map[];
      assert taken[0..] == taken;
      for i := 0 to |taken|
        invariant TargetEntries(known, entries, taken[i..]) == TargetEntries(known, map[], taken)
      {
        var t := taken[i];
        assert taken[i..][1..] == taken[i + 1..];
        if t.channel !in known.channels || t.client !in known.clients || t.permissions == map[] {
          continue;
        }
        var key := (t.channel, t.client);
        entries := entries[key := (if key in entries then entries[key] else map[]) + t.permissions];
      }
      assert taken[|taken|..] == [];
      targets := TargetsOf(entries, PairsOf(entries.Keys));
    }

    method NormalizeOnLoad()
      modifies this
      ensures Contents() == Normalize(old(Contents()))
    {
      NormalizeClientPermissions();
      NormalizeChannelGroupAssignments();
      NormalizeChannelClientPermissions();
    }
  }
}
