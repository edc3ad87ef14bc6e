/** What the load-time passes leave behind: existing references, one entry per key, a fixpoint. */
module NormalizationSafety {
  import opened Collections
  import opened Records
  import opened Normalization

  lemma DistinctHead<T>(s: seq<T>)
    requires s != [] && NoDup(s)
    ensures NoDup(s[1..]) && s[0] !in s[1..]
  {
  }

  /** Copying the listed entries one by one. */
  function PutAll<K(==), V>(start: map<K, V>, entries: map<K, V>, keys: seq<K>): map<K, V>
    requires forall k :: k in keys ==> k in entries
    decreases |keys|
  {
    if keys == [] then start else
      assert keys[0] in keys && forall k :: k in keys[1..] ==> k in keys;
      PutAll(start[keys[0] := entries[keys[0]]], entries, keys[1..])
  }

  lemma {:induction false} PutAllLookup<K, V>(start: map<K, V>, entries: map<K, V>, keys: seq<K>, k: K)
    requires forall k :: k in keys ==> k in entries
    ensures k in PutAll(start, entries, keys) <==> k in start || k in keys
    ensures k in keys ==> PutAll(start, entries, keys)[k] == entries[k]
    ensures k in start && k !in keys ==> PutAll(start, entries, keys)[k] == start[k]
    decreases |keys|
  {
    if keys != [] {
      assert keys == [keys[0]] + keys[1..];
      PutAllLookup(start[keys[0] := entries[keys[0]]], entries, keys[1..], k);
    }
  }

  lemma PutAllCopies<K, V>(entries: map<K, V>, keys: seq<K>)
    requires forall k :: k in keys <==> k in entries
    ensures PutAll(map[], entries, keys) == entries
  {
    var none: map<K, V> := map[];
    var copy := PutAll(none, entries, keys);
    forall k | k in copy ensures k in entries {
      PutAllLookup(none, entries, keys, k);
    }
    forall k | k in entries ensures k in copy && copy[k] == entries[k] {
      PutAllLookup(none, entries, keys, k);
    }
  }

  // --- Channel group assignments ---

  ghost predicate AllKept(known: Known, entries: map<Pair, nat>) {
    forall p :: p in entries ==> IsKept(known, AssignmentOf(p, entries[p]))
  }

  lemma {:induction false} GroupEntriesKept(known: Known, entries: map<Pair, nat>,
                                            assignments: seq<ChannelGroupAssignment>)
    requires AllKept(known, entries)
    ensures AllKept(known, GroupEntries(known, entries, assignments))
    decreases |assignments|
  {
    if assignments != [] {
      GroupEntriesKept(known, WithAssignment(known, entries, assignments[0]), assignments[1..]);
    }
  }

  lemma AssignmentsTail(entries: map<Pair, nat>, keys: seq<Pair>)
    requires keys != [] && forall k :: k in keys ==> k in entries
    ensures (forall k :: k in keys[1..] ==> k in keys) && keys[0] in keys
    ensures AssignmentsOf(entries, keys)
         == [AssignmentOf(keys[0], entries[keys[0]])] + AssignmentsOf(entries, keys[1..])
  {
    assert keys[0] in keys;
    assert forall k :: k in keys[1..] ==> k in keys;
  }

  /** Collecting the entries of a list that has one valid entry per key gives those entries. */
  lemma {:induction false} GroupEntriesOfList(known: Known, entries: map<Pair, nat>, keys: seq<Pair>,
                                              start: map<Pair, nat>)
    requires AllKept(known, entries) && NoDup(keys)
    requires forall k :: k in keys ==> k in entries && k !in start
    ensures GroupEntries(known, start, AssignmentsOf(entries, keys)) == PutAll(start, entries, keys)
    decreases |keys|
  {
    if keys != [] {
      var k0, rest := keys[0], keys[1..];
      DistinctHead(keys);
      assert k0 in keys && forall k :: k in rest ==> k in keys;
      AssignmentsTail(entries, keys);
      assert IsKept(known, AssignmentOf(k0, entries[k0]));
      GroupEntriesOfList(known, entries, rest, start[k0 := entries[k0]]);
    }
  }

  lemma AssignmentsIdempotent(known: Known, assignments: seq<ChannelGroupAssignment>)
    ensures NormalizedAssignments(known, NormalizedAssignments(known, assignments))
         == NormalizedAssignments(known, assignments)
  {
    var entries := GroupEntries(known, map[], assignments);
    var keys := PairsOf(entries.Keys);
    GroupEntriesKept(known, map[], assignments);
    GroupEntriesOfList(known, entries, keys, map[]);
    PutAllCopies(entries, keys);
  }

  /** The group of the last valid assignment of a key. */
  function LastGroup(known: Known, assignments: seq<ChannelGroupAssignment>, key: Pair): Option<nat> {
    if assignments == [] then None else
      var a, later := assignments[0], LastGroup(known, assignments[1..], key);
      if later.Some? then later
      else if IsKept(known, a) && (a.channel, a.client) == key then Some(a.group)
      else None
  }

  lemma {:induction false} LastAssignmentWins(known: Known, entries: map<Pair, nat>,
                                              assignments: seq<ChannelGroupAssignment>, key: Pair)
    ensures var result := GroupEntries(known, entries, assignments);
      var last := LastGroup(known, assignments, key);
      if last.Some? then key in result && result[key] == last.value
      else (key in result <==> key in entries) && (key in entries ==> result[key] == entries[key])
    decreases |assignments|
  {
    if assignments != [] {
      LastAssignmentWins(known, WithAssignment(known, entries, assignments[0]), assignments[1..], key);
    }
  }

  /** The stored list keeps an assignment exactly when it is the last valid one of its channel and client. */
  lemma KeptAssignments(known: Known, assignments: seq<ChannelGroupAssignment>, a: ChannelGroupAssignment)
    ensures a in NormalizedAssignments(known, assignments)
       <==> LastGroup(known, assignments, (a.channel, a.client)) == Some(a.group)
  {
    var entries := GroupEntries(known, map[], assignments);
    var keys, kept := PairsOf(entries.Keys), NormalizedAssignments(known, assignments);
    LastAssignmentWins(known, map[], assignments, (a.channel, a.client));
    if a in kept {
      var i :| 0 <= i < |kept| && kept[i] == a;
      assert keys[i] in keys;
    }
    if (a.channel, a.client) in keys {
      var i :| 0 <= i < |keys| && keys[i] == (a.channel, a.client);
      assert kept[i] in kept;
    }
  }

  // --- Channel client permissions ---

  ghost predicate AllKeptTargets(known: Known, entries: map<Pair, Permissions>) {
    forall p :: p in entries ==> IsKeptTarget(known, TargetOf(p, entries[p]))
  }

  lemma UnionNotEmpty(a: Permissions, b: Permissions)
    requires b != map[]
    ensures a + b != map[]
  {
    var k :| k in b;
    assert k in a + b;
  }

  lemma {:induction false} TargetEntriesKept(known: Known, entries: map<Pair, Permissions>,
                                             targets: seq<ChannelClientTarget>)
    requires AllKeptTargets(known, entries)
    ensures AllKeptTargets(known, TargetEntries(known, entries, targets))
    decreases |targets|
  {
    if targets != [] {
      var t := targets[0];
      if IsKeptTarget(known, t) {
        UnionNotEmpty(PermissionsOf(entries, (t.channel, t.client)), t.permissions);
      }
      TargetEntriesKept(known, WithTarget(known, entries, t), targets[1..]);
    }
  }

  lemma {:induction false} TargetEntriesOfList(known: Known, entries: map<Pair, Permissions>, keys: seq<Pair>,
                                               start: map<Pair, Permissions>)
    requires AllKeptTargets(known, entries) && NoDup(keys)
    requires forall k :: k in keys ==> k in entries && k !in start
    ensures TargetEntries(known, start, TargetsOf(entries, keys)) == PutAll(start, entries, keys)
    decreases |keys|
  {
    if keys != [] {
      var k0, rest := keys[0], keys[1..];
      DistinctHead(keys);
      assert k0 in keys && forall k :: k in rest ==> k in keys;
      assert TargetsOf(entries, keys)[1..] == TargetsOf(entries, rest);
      assert IsKeptTarget(known, TargetOf(k0, entries[k0]));
      assert map[] + entries[k0] == entries[k0];
      TargetEntriesOfList(known, entries, rest, start[k0 := entries[k0]]);
    }
  }

  lemma TargetsIdempotent(known: Known, targets: seq<ChannelClientTarget>)
    ensures NormalizedTargets(known, NormalizedTargets(known, targets)) == NormalizedTargets(known, targets)
  {
    var entries := TargetEntries(known, map[], targets);
    var keys := PairsOf(entries.Keys);
    TargetEntriesKept(known, map[], targets);
    TargetEntriesOfList(known, entries, keys, map[]);
    PutAllCopies(entries, keys);
  }

  /** The value a permission has in the last valid target of a key that mentions it. */
  function LastPermission(known: Known, targets: seq<ChannelClientTarget>, key: Pair, name: string): Option<int> {
    if targets == [] then None else
      var t, later := targets[0], LastPermission(known, targets[1..], key, name);
      if later.Some? then later
      else if IsKeptTarget(known, t) && (t.channel, t.client) == key && name in t.permissions
      then Some(t.permissions[name])
      else None
  }

  function PermissionIn(entries: map<Pair, Permissions>, key: Pair, name: string): Option<int> {
    if key in entries && name in entries[key] then Some(entries[key][name]) else None
  }

  lemma {:induction false} LastPermissionWins(known: Known, entries: map<Pair, Permissions>,
                                              targets: seq<ChannelClientTarget>, key: Pair, name: string)
    ensures var last := LastPermission(known, targets, key, name);
      PermissionIn(TargetEntries(known, entries, targets), key, name)
        == if last.Some? then last else PermissionIn(entries, key, name)
    decreases |targets|
  {
    if targets != [] {
      LastPermissionWins(known, WithTarget(known, entries, targets[0]), targets[1..], key, name);
    }
  }

  /** The stored targets give each channel and client exactly the last valid value of each permission. */
  lemma KeptPermissions(known: Known, targets: seq<ChannelClientTarget>, key: Pair, name: string, value: int)
    ensures (exists t :: t in NormalizedTargets(known, targets) && (t.channel, t.client) == key
               && name in t.permissions && t.permissions[name] == value)
       <==> LastPermission(known, targets, key, name) == Some(value)
  {
    var entries := TargetEntries(known, map[], targets);
    var keys, kept := PairsOf(entries.Keys), NormalizedTargets(known, targets);
    LastPermissionWins(known, map[], targets, key, name);
    forall t | t in kept && (t.channel, t.client) == key ensures key in entries && t.permissions == entries[key] {
      var i :| 0 <= i < |kept| && kept[i] == t;
      assert keys[i] in keys;
    }
    if key in keys {
      var i :| 0 <= i < |keys| && keys[i] == key;
      assert kept[i] in kept && kept[i] == TargetOf(key, entries[key]);
    }
  }

  // --- Client permissions ---

  ghost predicate AllProper(entries: map<nat, ClientTarget>) {
    forall k :: k in entries ==> entries[k].server == 0 && entries[k].client == k && entries[k].permissions != map[]
  }

  lemma {:induction false} ClientEntriesProper(entries: map<nat, ClientTarget>, targets: seq<ClientTarget>)
    requires AllProper(entries)
    ensures AllProper(ClientEntries(entries, targets))
    decreases |targets|
  {
    if targets != [] {
      var t := targets[0];
      if t.permissions != map[] {
        UnionNotEmpty(ClientEntry(entries, t.client).permissions, t.permissions);
        ClientEntriesProper(entries[t.client := Merged(ClientEntry(entries, t.client), t)], targets[1..]);
      } else {
        ClientEntriesProper(entries, targets[1..]);
      }
    }
  }

  lemma MergedIntoEmpty(t: ClientTarget)
    requires t.server == 0
    ensures Merged(EmptyTarget(t.client), t) == t
  {
    assert map[] + t.permissions == t.permissions;
  }

  lemma {:induction false} ClientEntriesOfList(entries: map<nat, ClientTarget>, keys: seq<nat>,
                                               start: map<nat, ClientTarget>)
    requires AllProper(entries) && NoDup(keys)
    requires forall k :: k in keys ==> k in entries && k !in start
    ensures ClientEntries(start, Values(entries, keys)) == PutAll(start, entries, keys)
    decreases |keys|
  {
    if keys != [] {
      var k0, rest := keys[0], keys[1..];
      DistinctHead(keys);
      assert k0 in keys && forall k :: k in rest ==> k in keys;
      assert Values(entries, keys)[1..] == Values(entries, rest);
      MergedIntoEmpty(entries[k0]);
      ClientEntriesOfList(entries, rest, start[k0 := entries[k0]]);
    }
  }

  lemma ClientsIdempotent(targets: seq<ClientTarget>)
    ensures NormalizedClients(NormalizedClients(targets)) == NormalizedClients(targets)
  {
    var entries := ClientEntries(map[], targets);
    var keys := KeysOf(entries.Keys);
    ClientEntriesProper(map[], targets);
    ClientEntriesOfList(entries, keys, map[]);
    PutAllCopies(entries, keys);
  }

  function FirstName(targets: seq<ClientTarget>, client: nat): string {
    if targets == [] then ""
    else if targets[0].client == client && targets[0].permissions != map[] && targets[0].uniqueId != ""
    then targets[0].uniqueId
    else FirstName(targets[1..], client)
  }

  function FirstNickname(targets: seq<ClientTarget>, client: nat): string {
    if targets == [] then ""
    else if targets[0].client == client && targets[0].permissions != map[] && targets[0].nickname != ""
    then targets[0].nickname
    else FirstNickname(targets[1..], client)
  }

  function LastClientPermission(targets: seq<ClientTarget>, client: nat, name: string): Option<int> {
    if targets == [] then None else
      var t, later := targets[0], LastClientPermission(targets[1..], client, name);
      if later.Some? then later
      else if t.client == client && name in t.permissions then Some(t.permissions[name])
      else None
  }

  function ClientPermissionIn(entries: map<nat, ClientTarget>, client: nat, name: string): Option<int> {
    if client in entries && name in entries[client].permissions then Some(entries[client].permissions[name]) else None
  }

  ghost predicate HasPermissions(targets: seq<ClientTarget>, client: nat) {
    exists i :: 0 <= i < |targets| && targets[i].client == client && targets[i].permissions != map[]
  }

  /** The first target that names the client names it; the last one that mentions a permission sets it. */
  lemma {:induction false} ClientEntryWins(entries: map<nat, ClientTarget>, targets: seq<ClientTarget>, client: nat,
                                           name: string)
    ensures var result := ClientEntries(entries, targets);
      var last := LastClientPermission(targets, client, name);
      && ClientPermissionIn(result, client, name)
           == (if last.Some? then last else ClientPermissionIn(entries, client, name))
      && (client in result ==>
            result[client].uniqueId ==
              if ClientEntry(entries, client).uniqueId != "" then ClientEntry(entries, client).uniqueId
              else FirstName(targets, client))
      && (client in result ==>
            result[client].nickname ==
              if ClientEntry(entries, client).nickname != "" then ClientEntry(entries, client).nickname
              else FirstNickname(targets, client))
      && (client in result <==> client in entries || HasPermissions(targets, client))
    decreases |targets|
  {
    if targets != [] {
      var t := targets[0];
      var entries' := if t.permissions == map[] then entries
                      else entries[t.client := Merged(ClientEntry(entries, t.client), t)];
      ClientEntryWins(entries', targets[1..], client, name);
      assert targets == [t] + targets[1..];
    }
  }

  lemma ClientsDiffer(targets: seq<ClientTarget>)
    ensures var kept := NormalizedClients(targets);
      forall i, j :: 0 <= i < j < |kept| ==> kept[i].client < kept[j].client
  {
    var entries := ClientEntries(map[], targets);
    var keys := KeysOf(entries.Keys);
    ClientEntriesProper(map[], targets);
    assert forall i :: 0 <= i < |keys| ==> keys[i] in keys;
  }

  lemma KeptAreEntries(targets: seq<ClientTarget>, client: nat)
    ensures var entries := ClientEntries(map[], targets);
      && ((exists t :: t in NormalizedClients(targets) && t.client == client) <==> client in entries)
      && forall t :: t in NormalizedClients(targets) && t.client == client ==> client in entries && t == entries[client]
  {
    var entries := ClientEntries(map[], targets);
    var keys, kept := KeysOf(entries.Keys), NormalizedClients(targets);
    ClientEntriesProper(map[], targets);
    forall t | t in kept && t.client == client ensures client in entries && t == entries[client] {
      var i :| 0 <= i < |kept| && kept[i] == t;
      assert keys[i] in keys;
    }
    if client in keys {
      var i :| 0 <= i < |keys| && keys[i] == client;
      assert kept[i] in kept && kept[i] == entries[client];
    }
  }

  /** The stored targets hold each client that has permissions, with the last value of each of them and its
      first names. */
  lemma KeptClients(targets: seq<ClientTarget>, client: nat)
    ensures (exists t :: t in NormalizedClients(targets) && t.client == client) <==> HasPermissions(targets, client)
    ensures forall t :: t in NormalizedClients(targets) && t.client == client ==>
      && t.server == 0 && t.uniqueId == FirstName(targets, client) && t.nickname == FirstNickname(targets, client)
      && forall name :: LastClientPermission(targets, client, name) ==
           if name in t.permissions then Some(t.permissions[name]) else None
    ensures forall i, j :: 0 <= i < j < |NormalizedClients(targets)| ==>
      NormalizedClients(targets)[i].client < NormalizedClients(targets)[j].client
  {
    ClientsDiffer(targets);
    var entries := ClientEntries(map[], targets);
    ClientEntriesProper(map[], targets);
    ClientEntryWins(map[], targets, client, "");
    KeptAreEntries(targets, client);
    forall name ensures ClientPermissionIn(entries, client, name) == LastClientPermission(targets, client, name) {
      ClientEntryWins(map[], targets, client, name);
    }
  }

  // --- All three passes ---

  lemma AssignmentsRefer(known: Known, assignments: seq<ChannelGroupAssignment>)
    ensures forall a :: a in NormalizedAssignments(known, assignments) ==> IsKept(known, a)
    ensures forall i, j :: 0 <= i < j < |NormalizedAssignments(known, assignments)| ==>
      var a, b := NormalizedAssignments(known, assignments)[i], NormalizedAssignments(known, assignments)[j];
      (a.channel, a.client) != (b.channel, b.client)
  {
    GroupEntriesKept(known, map[], assignments);
    var entries := GroupEntries(known, map[], assignments);
    var keys := PairsOf(entries.Keys);
    assert forall i :: 0 <= i < |keys| ==> keys[i] in keys;
  }

  lemma TargetsRefer(known: Known, targets: seq<ChannelClientTarget>)
    ensures forall t :: t in NormalizedTargets(known, targets) ==> IsKeptTarget(known, t)
    ensures forall i, j :: 0 <= i < j < |NormalizedTargets(known, targets)| ==>
      var a, b := NormalizedTargets(known, targets)[i], NormalizedTargets(known, targets)[j];
      (a.channel, a.client) != (b.channel, b.client)
  {
    TargetEntriesKept(known, map[], targets);
    var entries := TargetEntries(known, map[], targets);
    var keys := PairsOf(entries.Keys);
    assert forall i :: 0 <= i < |keys| ==> keys[i] in keys;
  }

  /** Running the passes again changes nothing. */
  lemma NormalizeIsFixpoint(w: Loaded)
    ensures Normalize(Normalize(w)) == Normalize(w)
  {
    var w1 := w.(clientTargets := NormalizedClients(w.clientTargets));
    ClientsIdempotent(w.clientTargets);
    AssignmentsIdempotent(KnownIn(w1), w.assignments);
    TargetsIdempotent(KnownIn(w1), w.targets);
  }
}
